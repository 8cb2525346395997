/** The transition rule of Conway's Game of Life, on the two cell symbols the
    program reads and writes. */
module Rule {

  /** The symbol of a live cell; every other character is a dead cell. */
  const Alive: char := 'X'

  /** The symbol the rule writes for a dead cell. */
  const Dead: char := '.'

  /** The next state of `cell` when it has `neighbours` live neighbours.
      A live cell survives with two or three live neighbours and dies of
      under- or over-population otherwise; any other character is a dead
      cell, which is born with exactly three live neighbours. The rule is
      total over every integer count and writes only the two symbols. */
  function LifeOrDeath(neighbours: int, cell: char): (next: char)
    ensures next == Alive || next == Dead
    ensures cell == Alive ==> (next == Alive <==> 2 <= neighbours <= 3)
    ensures cell != Alive ==> (next == Alive <==> neighbours == 3)
  {
    if cell == Alive then
      if neighbours < 2 then Dead            // under-population
      else if neighbours == 2 || neighbours == 3 then Alive
      else Dead                               // over-population: neighbours > 3
    else if neighbours == 3 then Alive        // birth
    else Dead
  }
}
