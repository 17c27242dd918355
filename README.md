# Prime spirals

A model of the two prime-spiral generators in `main.py`. Both colour the
integers by primality and by membership in one of three Euler-type prime
families (the primes among i² + i + 41, i² + i + 17 and i² + i + 11 for
i in 0..999):

- The **Ulam spiral** puts number 1 at the centre of an odd-sized square
  grid. A cursor then walks legs of 1, 1, 2, 2, 3, 3, … cells, alternating
  between the x and the y axis. The step is reversed after every leg, and
  once more after each pair of legs, so the step stays the same from a
  turn's y leg to the next turn's x leg. The legs run +x, −y, −x, +y, +x, …. It
  writes the colour of each number it passes (black for a non-prime) until
  it reaches size². The grid is returned as its transpose
  (`np.rot90(np.flip(arr, 0), -1)`).
- The **Sacks spiral** places each number below size² at a cell given by a
  floating-point polar formula on a 2·size × 2·size grid. It writes only the
  primes, in their family colour. The grid is returned turned a quarter
  clockwise.

## Modules

- `primes.dfy` (`Primes`) covers primality.
  - `IsPrime` is the mathematical definition: at least 2, with no divisor
    strictly between 1 and n.
  - `IsPrimeTrial` is the `is_prime` loop: trial division by 3, 5, 7, … up to
    the integer square root. It is proved to agree with `IsPrime`.
- `classification.dfy` (`Classification`) covers the family sets and the
  colouring.
  - `FamilySet(c)` is a family set. The datatype `Colour` has an RGB triple
    for each colour.
  - `Classify` is the colour priority both spirals use: family 41, then 17,
    then 11, then white for any other prime, else black.
- `grids.dfy` (`Grids`) holds the value snapshot of a two-dimensional array.
  It also defines the numpy reorientations as index permutations:
  `np.flip(a, 0)`, `np.rot90(a, -1)` and the transpose.
- `ulam.dfy` (`Ulam`) is the class `UlamSpiral`.
  - Its fields are the cursor (`posX`, `posY`), `step`, `num` and the array.
    A ghost sequence `visited` records where each number was written.
  - The walk is specified by pure functions:
    - `Leg`: the cells of one leg;
    - `Spiral` and `FullSpiral`: the cells of whole turns;
    - `PenBefore`: the state before a turn;
    - `AfterSide` and `AfterTurn`: what `fill_side` and one round of the
      driver loop do to that state.
  - The methods are proved against these functions.
- `sacks.dfy` (`Sacks`) is the class `SacksSpiral`.
  - The placement function `get_index` is a parameter `index` of
    `GetSpiral`.
  - The final array is described cell by cell by the pure function `Plot`:
    each cell shows the colour of the last prime placed there, or keeps its
    colour when none was.

## Model

| member | source | states |
|---|---|---|
| `Primes.IsPrimeTrial` | main.py:5-11 | `is_prime` answers true exactly when n ≥ 2 and no d with 1 < d < n divides n. This covers 2, numbers below 2, even numbers and odd trial division. |
| `Primes.FloorSqrt` | main.py:8 | The loop bound `int(num ** 0.5)` is the integer square root r, with r² ≤ n < (r + 1)². |
| `Primes.TrialSuffices` | main.py:8-11 | For odd n ≥ 3, having no odd divisor from 3 up to the integer square root makes n prime. This is why the loop may stop there. |
| `Primes.OddCandidatesExtend` | main.py:8-10 | An odd candidate that does not divide n extends the range of ruled-out odd divisors by the loop's stride of 2. |
| `Primes.FoundDivisor` | main.py:9-10 | A candidate between 3 and the integer square root that divides n is a proper divisor, so the answer false is correct. |
| `Primes.SmallCases` | main.py:6-7 | 0, 1 and negative numbers are not prime, 2 is prime, and no even number above 2 is prime. |
| `Classification.FamilySet` | main.py:23-25 | Every member of `primes41`, `primes17` and `primes11` is a prime at least as large as the polynomial's constant. |
| `Classification.Family41Begins` | main.py:23 | 41, 43, 47, 53 and 61 (i = 0..4) are in `primes41`. |
| `Classification.Rgb` | main.py:32-38 | Every stored triple has components 0 or 255, and the triple is (0, 0, 0) exactly for black, the colour of an unwritten cell. |
| `Classification.Classify` | main.py:31-38 | The colour priority of `fill_side` and of the Sacks `get_spiral` (main.py:69-80). A number gets a family colour (red, green or blue) exactly when it is in one of the three family sets. It is white exactly when it is a prime in none of them. |
| `Classification.ClassifyColoursExactlyPrimes` | main.py:31-38 | A number gets a colour other than black exactly when it is prime. |
| `Classification.SmallNumbersHaveNoFamily` | main.py:31-38 | A number below 11 is in no family, so it is white when prime and black otherwise. |
| `Classification.ClassifyExamples` | main.py:31-38 | The priority order on examples: 47 is in both `primes41` and `primes17` and is red, 17 is green, 41 is red, 5 is white, and 1, 4 and 42 are black. |
| `Grids.FlipRows` | main.py:48 | `np.flip(arr, axis=0)` keeps the number of rows and keeps a square grid square. Row i of the array becomes row n - 1 - i. |
| `Grids.RotateCw` | main.py:81 | `np.rot90(g, -1)` of a square grid is square, and it moves the cell at row i, column j to row j, column n - 1 - i: a quarter turn clockwise. |
| `Grids.RotateCwIsFlippedTranspose` | main.py:81 | The quarter turn equals the transpose with every row reversed, `flip(transpose(g), axis=1)`, which is how numpy builds `rot90(g, -1)`. |
| `Grids.FlipThenRotateIsTranspose` | main.py:48 | Flipping the rows and then turning clockwise gives the transpose. |
| `Ulam.UlamSpiral.constructor` | main.py:16-25 | An odd size is kept and an even one is raised by one. max_num = size², the cursor is at (size/2, size/2), step = 1, num = 1, every cell is black, and the invariant holds. |
| `Ulam.UlamSpiral.ColourOf` | main.py:31-38 | The membership-test chain of `fill_side` yields exactly `Classify(num)`. |
| `Ulam.UlamSpiral.Advance` | main.py:31-40 | One iteration writes the number's colour at the cursor, moves the cursor one unit step along `side`, counts the number, and keeps the invariant. The invariant keeps step at ±1, so the `-self.step` branch is never taken. |
| `Ulam.UlamSpiral.ReverseStep` | main.py:41 | `self.step *= -1` negates the step, changes nothing else, and keeps the invariant. |
| `Ulam.LegLengthBound` | main.py:28-30 | A leg is cut short exactly when num reaches max_num before `iterations` steps. |
| `Ulam.LegStep` | main.py:39 | Each step moves only coordinate `side`, by the step, to an adjacent cell. |
| `Ulam.UlamSpiral.FillSide` | main.py:27-41 | The new state is `AfterSide` of the old one. The leg of `LegLength(iterations, num, max_num)` cells along `side` is written, the cursor moves past it, num grows by that length, and step is negated. The loop stops without writing once num = max_num. The invariant is kept. |
| `Ulam.TurnFirstClosed` | main.py:44-46 | Turn k starts at number k(k - 1) + 1. |
| `Ulam.TurnLegs` | main.py:44-46 | On a grid of the given size, every turn before the last writes two whole legs of k cells. The last turn (k = size) writes size - 1 cells along x and then reaches max_num. |
| `Ulam.TurnOutcome` | main.py:44-47 | From the state before turn k, both legs stay on the grid, and one round of the loop leads to the state before turn k + 1: `AfterTurn(PenBefore(k)) == PenBefore(k + 1)`. |
| `Ulam.TurnLast` | main.py:29-30 | In the last turn the x leg stops one cell short, at max_num, in the corner (size - 1, size - 1), and the y leg writes nothing. |
| `Ulam.TurnDone` | main.py:29-30 | The rounds after max_num is reached write nothing and only flip the step. |
| `Ulam.PenAtEnd` | main.py:44-47 | After rounds 1 .. size² - 1: num = max_num, the cursor is in the corner (size - 1, size - 1), step = 1, and the cells written are the whole walk. |
| `Ulam.UlamSpiral.Turn` | main.py:45-47 | One round of the driver loop is `AfterTurn` of the state, and it leads from the start of turn k to the start of turn k + 1. |
| `Ulam.SpiralShape` | main.py:43-47 | The first k turns write TurnFirst(k + 1) - 1 distinct cells. They start at the centre and stay within the rectangle of those turns. |
| `Ulam.FullSpiralShape` | main.py:43-47 | The whole walk on a grid of size 2c + 1 visits (2c + 1)² - 1 distinct cells, starting at the centre. |
| `Ulam.ChainAdjacent` | main.py:39-40 | The cells of consecutive numbers are at Manhattan distance 1. |
| `Ulam.PaintedAtVisited` | main.py:31-38 | When no cell is written twice, the cell of number k + 1 keeps that number's colour. |
| `Ulam.PaintedUnvisited` | main.py:19 | A cell no number was written to stays black. |
| `Ulam.UlamSpiral.Drawing` | main.py:43-47 | In the finished spiral, numbers 1 .. max_num - 1 were written at distinct cells, the first at the centre. Consecutive numbers are neighbours. Each written cell shows its number's colour, and every other cell is black. |
| `Ulam.UlamSpiral.GetSpiral` | main.py:43-48 | Ends with num = max_num, step = 1 and the cursor in the far corner, and everything `Drawing` states holds. Returns `rot90(flip(arr, 0), -1)`, which equals the transpose of the array. |
| `Sacks.SacksSpiral.constructor` | main.py:52-58 | size is kept, max_num = size², and the grid is 2·size × 2·size and all black. |
| `Sacks.SacksSpiral.InAndPrime` | main.py:69 | `num in s and is_prime(num)` is membership and primality, with the test run only for members. |
| `Sacks.SacksSpiral.PlotColour` | main.py:69-80 | The colour chain plots a number exactly when it is prime, in the colour `Classify` gives it. The extra `and is_prime` tests never change the outcome. |
| `Sacks.SacksSpiral.GetSpiral` | main.py:67-81 | Each cell ends as `Plot` of the numbers 0 .. max_num - 1 over its old colour. The result is `rot90(arr, -1)`, with out[i][j] = arr[2·size-1-j, i]. |
| `Sacks.Plot` | main.py:68-80 | The colour of a cell once the numbers below n have been plotted. A write only ever stores a prime's colour, so a cell either keeps its starting colour or is not black. |
| `Sacks.PlotComesFromPrime` | main.py:68-80 | A cell whose colour changed shows the colour `Classify` gives some prime below n that was placed at that cell. |
| `Sacks.PlotUntouched` | main.py:68-80 | A cell no prime below max_num is placed at keeps its colour. |
| `Sacks.PlotLastWins` | main.py:68-80 | A cell shows the colour of the last prime placed at it. Later writes replace earlier ones. |
| `Sacks.PlotBlackIffUntouched` | main.py:68-80 | On the blank grid, a cell stays black exactly when no prime below max_num is placed at it. |
| `Sacks.PlotInitIrrelevant` | main.py:68-80 | Either nothing is written at a cell, or its final colour does not depend on its colour before the loop. |
| `Sacks.PlotIdempotent` | main.py:67-81 | Plotting the same numbers again changes nothing, so calling `get_spiral` twice gives the same grid. |

## Left out

- The `App` class (main.py:85-149) is left out: the pygame window, the event loop, panning and zooming, surface scaling and frame pacing. It is user-interface code around a library this model does not cover.
- The body of `SacksSpiral.get_index` (main.py:60-65) is left out. It is floating-point `sqrt`, `sin` and `cos` with truncation to int. `GetSpiral` takes it as a parameter `index` instead.
- `Sacks.SacksSpiral.GetSpiral` requires every placement to lie inside the grid. The model does not cover numpy's negative-index wrap-around or an `IndexError` for a placement outside it.
- `Primes.FloorSqrt` models `int(num ** 0.5)` as the exact integer square root. Float rounding for very large numbers is not modelled.
- `Ulam.UlamSpiral.FillSide` requires that the leg it writes stays on the grid. Every call from `get_spiral` meets this, and `TurnOutcome` proves it. A direct call that would leave the grid, where numpy would wrap a negative index or raise, is not modelled.
- `Ulam.UlamSpiral.GetSpiral` requires the state left by the constructor. A second call on the same object is not modelled.
- `Ulam.UlamSpiral.constructor` and `Sacks.SacksSpiral.constructor` require a size of at least 0, because numpy refuses a negative dimension.
- The arrays hold a `Colour` rather than a float RGB triple. `Rgb` gives the triple each colour stands for, and every stored value is 0 or 255.
- `np.flip` and `np.rot90` return views of the array. The model returns them as values, taken when the method returns.
- The family sets are defined with the primality predicate `IsPrime` rather than by calling `is_prime`. The two agree, as `IsPrimeTrial` proves.
- Helper methods split the source's functions for the proofs:
  - `ColourOf`, `Advance` and `ReverseStep` are pieces of `fill_side`;
  - `Turn` is the body of the loop in `get_spiral`;
  - `InAndPrime` and `PlotColour` are the condition chain of `SacksSpiral.get_spiral`.
- The trial-division loop's speed is not modelled.
