/**
 * The Sacks spiral: every number below size * size that is prime is
 * plotted at the cell the (floating-point) placement function gives it,
 * in the colour of its family; nothing else is written.
 */
module Sacks {
  import opened Primes
  import opened Classification
  import opened Grids

  datatype Option<T> = None | Some(value: T)

  /** The cell (row, col) lies on the grid of 2 * size rows and columns. */
  predicate InSquare(p: Cell, size: int) {
    0 <= p.0 < 2 * size && 0 <= p.1 < 2 * size
  }

  /**
   * The colour of cell p once the numbers 0 .. n - 1 have been plotted over
   * a cell that started as `init`: the colour of the last prime placed at p,
   * or `init` when none was.
   */
  ghost function Plot(index: int -> Cell, n: int, p: Cell, init: Colour): (r: Colour)
    ensures r == init || r != Black
    decreases n
  {
    if n <= 0 then init
    else if IsPrime(n - 1) && index(n - 1) == p then Classify(n - 1)
    else Plot(index, n - 1, p, init)
  }

  /** A cell that changed colour shows the colour of a prime below n placed at it. */
  lemma {:induction false} PlotComesFromPrime(index: int -> Cell, n: int, p: Cell, init: Colour)
    ensures Plot(index, n, p, init) == init ||
      exists k :: 0 <= k < n && IsPrime(k) && index(k) == p && Plot(index, n, p, init) == Classify(k)
  {
    if n > 0 && !(IsPrime(n - 1) && index(n - 1) == p) {
      PlotComesFromPrime(index, n - 1, p, init);
    }
  }

  /** A cell no prime below n is placed at keeps its colour. */
  lemma {:induction false} PlotUntouched(index: int -> Cell, n: int, p: Cell, init: Colour)
    requires forall k :: 0 <= k < n && IsPrime(k) ==> index(k) != p
    ensures Plot(index, n, p, init) == init
  {
    if n > 0 {
      PlotUntouched(index, n - 1, p, init);
    }
  }

  /** A cell shows the colour of the last prime below n placed at it: later writes replace earlier ones. */
  lemma {:induction false} PlotLastWins(index: int -> Cell, n: int, k: int, p: Cell, init: Colour)
    requires 0 <= k < n && IsPrime(k) && index(k) == p
    requires forall j :: k < j < n && IsPrime(j) ==> index(j) != p
    ensures Plot(index, n, p, init) == Classify(k)
  {
    if n - 1 > k {
      PlotLastWins(index, n - 1, k, p, init);
    }
  }

  /** On a blank grid a cell stays black exactly when no prime below n is placed at it. */
  lemma {:induction false} PlotBlackIffUntouched(index: int -> Cell, n: int, p: Cell)
    ensures Plot(index, n, p, Black) == Black <==> forall k :: 0 <= k < n && IsPrime(k) ==> index(k) != p
  {
    if n > 0 {
      PlotBlackIffUntouched(index, n - 1, p);
      if IsPrime(n - 1) {
        ClassifyColoursExactlyPrimes(n - 1);
      }
    }
  }

  /** Either no write reaches p, or the cell's final colour does not depend on its starting colour. */
  lemma {:induction false} PlotInitIrrelevant(index: int -> Cell, n: int, p: Cell, a: Colour, b: Colour)
    ensures (Plot(index, n, p, a) == a && Plot(index, n, p, b) == b) || Plot(index, n, p, a) == Plot(index, n, p, b)
  {
    if n > 0 && !(IsPrime(n - 1) && index(n - 1) == p) {
      PlotInitIrrelevant(index, n - 1, p, a, b);
    }
  }

  /** Plotting the same numbers a second time changes nothing: `get_spiral` is idempotent. */
  lemma PlotIdempotent(index: int -> Cell, n: int, p: Cell, init: Colour)
    ensures Plot(index, n, p, Plot(index, n, p, init)) == Plot(index, n, p, init)
  {
    PlotInitIrrelevant(index, n, p, init, Plot(index, n, p, init));
  }

  class SacksSpiral {
    const size: int
    const maxNum: int
    /** The image: arr[row, col] for the (row, col) the placement function gives. */
    const arr: array2<Colour>
    const primes41: set<int> := FamilySet(41)
    const primes17: set<int> := FamilySet(17)
    const primes11: set<int> := FamilySet(11)

    ghost predicate Valid()
      reads this
    {
      size >= 0 && maxNum == size * size && arr.Length0 == 2 * size && arr.Length1 == 2 * size
    }

    /** A black grid of 2 * size rows and columns, for the numbers below size^2. */
    constructor (requested: int)
      requires requested >= 0
      ensures Valid() && size == requested && maxNum == requested * requested && fresh(arr)
      ensures forall r, c :: 0 <= r < 2 * size && 0 <= c < 2 * size ==> arr[r, c] == Black
    {
      size := requested;
      maxNum := requested * requested;
      arr := new Colour[2 * requested, 2 * requested]((r, c) => Black);
    }

    /** Python's `n in s and is_prime(n)`: the primality test runs only for members. */
    method InAndPrime(s: set<int>, n: int) returns (b: bool)
      ensures b == (n in s && IsPrime(n))
    {
      b := n in s;
      if b {
        b := IsPrimeTrial(n);
      }
    }

    /**
     * The colour chain of `get_spiral`: family 41, then 17, then 11, each
     * also tested for primality, then the plain primality test; no colour
     * when all fail. The extra primality tests never change the outcome:
     * a number is plotted exactly when it is prime, in the colour Classify
     * gives it.
     */
    method PlotColour(n: int) returns (colour: Option<Colour>)
      ensures colour == if IsPrime(n) then Some(Classify(n)) else None
    {
      var red := InAndPrime(primes41, n);
      if red {
        return Some(Red);
      }
      var green := InAndPrime(primes17, n);
      if green {
        return Some(Green);
      }
      var blue := InAndPrime(primes11, n);
      if blue {
        return Some(Blue);
      }
      var white := IsPrimeTrial(n);
      colour := if white then Some(White) else None;
    }

    /**
     * `get_spiral`: plots the numbers 0 .. maxNum - 1 at the cells `index`
     * gives them, the primes only, and returns the grid turned a quarter
     * clockwise.
     */
    method GetSpiral(index: int -> Cell) returns (out: seq<seq<Colour>>)
      requires Valid()
      requires forall n :: 0 <= n < maxNum ==> InSquare(index(n), size)
      modifies arr
      ensures forall r, c :: 0 <= r < 2 * size && 0 <= c < 2 * size ==>
        arr[r, c] == Plot(index, maxNum, (r, c), old(arr[r, c]))
      ensures IsSquare(Cells(arr), 2 * size) && out == RotateCw(Cells(arr))
      ensures forall i, j :: 0 <= i < 2 * size && 0 <= j < 2 * size ==> out[i][j] == arr[2 * size - 1 - j, i]
    {
      for num := 0 to maxNum
        invariant forall r, c {:trigger arr[r, c]} :: 0 <= r < 2 * size && 0 <= c < 2 * size ==>
          arr[r, c] == Plot(index, num, (r, c), old(arr[r, c]))
      {
        var colour := PlotColour(num);
        if colour.Some? {
          var p := index(num);
          assert InSquare(p, size);
          arr[p.0, p.1] := colour.value;
        }
      }
      out := RotateCw(Cells(arr));
    }
  }
}
