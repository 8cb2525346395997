# Game of Life in C — a verified model

`GameOfLife.c` is a small command-line Game of Life. It reads the grid's
height, width and number of steps, then a grid of `height * width`
characters where `X` is a live cell. It runs Conway's rule for the given
number of generations and prints the final grid. The grid is a flat buffer
in row-major order: cell `(y, x)` lives at index `y * width + x`. The grid
has hard edges. A cell on the border has fewer neighbours, and nothing wraps
around.

The model has four modules:

- `Rule` (`rule.dfy`) is the transition rule `lifeOrDeath`.
- `Grid` (`grid.dfy`) holds the index arithmetic and the neighbour count
  `checkNeighbours`. The count is written the way the program writes it:
  eight neighbour characters start as the edge marker `'!'` and are read
  from the buffer only when their guard holds. It is proved equal to an
  independent definition, the number of live in-grid cells in the 3x3 window
  minus the cell itself. This module also holds the guard lemmas, including
  the one for the bottom guard as the program writes it.
- `Generation` (`generation.dfy`) has three parts:
  - the next-generation function, defined cell by cell from the rule and the
    window count;
  - `oneGeneration`, an imperative method on an `array<char>`: it computes
    into a second buffer from the unchanged field, then copies back in place;
  - `newGame`, a counting loop of `oneGeneration` calls.

  Lemmas cover iterated generations, still lifes, an empty grid and two
  classic patterns.
- `FieldText` (`field_text.dfy`) covers the text form:
  - `getField` is a loop over the input characters that skips line breaks.
  - `printField` is the rendering as `height` lines of `width` characters.
  - A lemma proves that parsing the rendering gives the field back.

Outside the model:

- Standard input becomes a `seq<char>` parameter of `GetField`.
- The printed text is the value `PrintField` returns.
- `height`, `width` and `steps` are parameters.

## Model

| member | source | states |
|---|---|---|
| Rule.LifeOrDeath | GameOfLife.c:147-167 | The result is always `X` or `.`. A live cell stays alive exactly when it has 2 or 3 neighbours. Any other character is a dead cell, which becomes alive exactly with 3 neighbours. This holds for every integer count. |
| Grid.CheckNeighbours | GameOfLife.c:85-144 | The eight guarded reads with the `'!'` edge marker, tallied for `X`. The count lies in 0..8 and equals the number of live in-grid cells among the eight positions around `(y, x)` (the window definition `LiveNeighbours`). |
| Grid.ReadTally | GameOfLife.c:99-121 | A read taken exactly when its position is on the grid is in bounds and tallies as that position's live test. A read the guard skips keeps `'!'` and tallies 0. |
| Grid.TopGuard | GameOfLife.c:99 | `base - width >= 0` holds exactly when `y >= 1`. The index read is then that of row `y - 1`. |
| Grid.BottomGuard | GameOfLife.c:115 | The intended guard `base + width < height * width` holds exactly when `y + 1 < height`. The index read is then that of row `y + 1`. |
| Grid.BottomGuardAsWrittenOverreads | GameOfLife.c:115-121 | The guard as written (`<=`) also admits cell `(height - 1, 0)`. There the bottom-middle read is at index `height * width`, past the end of the buffer. When `width > 1` the bottom-right read is also taken there, at `height * width + 1`. |
| Grid.NeighboursLocal | GameOfLife.c:85-144 | Two buffers that agree on the in-grid neighbours of `(y, x)` give the same count. The cell itself and everything outside its 3x3 window are never read. |
| Grid.EdgesDoNotWrap | GameOfLife.c:99-121 | No wrap-around, for widths of at least 3. Changing the last column does not change the count of a first-column cell, and changing the first column does not change the count of a last-column cell. |
| Grid.CornersAtMostThree | GameOfLife.c:99-121 | Each of the four corner cells has at most three neighbours. |
| Grid.NoLiveNoNeighbours | GameOfLife.c:123-141 | A buffer without any `X` gives every cell a count of 0. |
| Generation.NextGenCell | GameOfLife.c:69-75 | Cell `(y, x)` of the next generation is `lifeOrDeath(checkNeighbours(field, y, x), field[y * width + x])`, both taken from the old generation. |
| Generation.NextGen | GameOfLife.c:66-82 | The next generation has the same shape, and every cell of it is `X` or `.`. |
| Generation.OneGeneration | GameOfLife.c:66-82 | In place over the array: afterwards the buffer holds the next generation of its old contents, and the same buffer is returned. |
| Generation.NewGame | GameOfLife.c:58-63 | The buffer holds `steps` generations of its old contents, and the same buffer is returned. A count of zero or less leaves it unchanged. |
| Generation.GenerationsShift | GameOfLife.c:60-61 | `k + 1` generations are `k` generations started from the next one. |
| Generation.GenerationsAdd | GameOfLife.c:60-61 | `a` generations followed by `b` more are `a + b` generations. |
| Generation.GenerationsSymbols | GameOfLife.c:60-61 | After at least one generation every cell is `X` or `.`. |
| Generation.StillLife | GameOfLife.c:60-61 | A grid that is its own next generation stays unchanged for any number of steps. |
| Generation.NoLifeStaysDead | GameOfLife.c:60-82 | A grid without live cells is all `.` after any positive number of generations. |
| Generation.NextGenByCells | GameOfLife.c:66-82 | A buffer that matches the rule cell by cell is the next generation. |
| Generation.Blinker | GameOfLife.c:58-63 | On a 3x3 grid, a horizontal line of three turns into a vertical line after one step. |
| Generation.Block | GameOfLife.c:58-63 | The 2x2 block on a 4x4 grid is unchanged after five steps. |
| FieldText.CellsHaveNoNewline | GameOfLife.c:50-51 | No line break is ever taken as a cell character. |
| FieldText.CellsConcat | GameOfLife.c:47-52 | The cell characters of a concatenation are those of the two parts, in order. |
| FieldText.ReadCell | GameOfLife.c:49-51 | Reads one character, and more while the last one read is a line break. It returns a character that is not a line break, with the position just after it. The cells read so far grow by exactly that character. |
| FieldText.GetField | GameOfLife.c:41-55 | A fresh buffer holding the first `height * width` non-newline characters of the input, in row-major order, never a line break. |
| FieldText.PrintField | GameOfLife.c:170-178 | The rendering is `height * (width + 1)` characters long. |
| FieldText.PrintFieldLine | GameOfLife.c:171-177 | Line `y` of the rendering is row `y` of the field followed by a line break. |
| FieldText.ParsePrinted | GameOfLife.c:41-55 | For a field without line breaks, the cell characters of its rendering are exactly the field. So `GetField` applied to the output of `PrintField` returns the field. |

## Left out

- `getIntInput`, `scanf`, `getchar` and `printf`: I/O is not modelled. The
  input stream is a parameter of `GetField`, and the output is the sequence
  `PrintField` returns.
- End of input: on end of input, `getField` stores `(char)EOF` in every
  remaining cell; `GetField` instead requires at least `height * width`
  non-newline characters.
- `malloc`, `free` and allocation failure: the buffers are Dafny arrays.
  `OneGeneration` allocates its second buffer with `new`.
- Validation of the three integers: the source checks none of them.
  `height` and `width` are natural numbers in the model. A negative `steps`
  is kept and runs zero generations, as in the source.
- 32-bit `int` overflow is not modelled. This includes the overflow of
  `height * width` or of an index; arithmetic in the model is unbounded.
- `main` is not modelled. It only passes the three integers and the buffers
  between the functions above.
- Grid.CheckNeighbours: models the bottom guard with `<` rather than the `<=`
  the source writes. The as-written guard is covered by
  `Grid.BottomGuardAsWrittenOverreads` (see Findings). The out-of-bounds read
  it allows has undefined behaviour in C, so no value is modelled for it.

## Findings

| source | as written | input that shows it | evidently intended | confidence | as-written member | corrected member |
|---|---|---|---|---|---|---|
| GameOfLife.c:115 | `if((base_index)+width <= height*width)` guards the three bottom-neighbour reads | any grid with `height >= 1` and `width >= 1`, at cell `(height - 1, 0)`: the guard holds and `bottom_mid` reads `field[height*width]`, one past the end (with `width > 1`, `bottom_right` also reads `field[height*width + 1]`) | `base_index + width < height*width`, i.e. the cell has a row below it | not executed | Grid.BottomGuardAsWrittenOverreads | Grid.BottomGuard |
