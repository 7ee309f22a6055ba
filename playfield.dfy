/** The fixed 800x600 playfield (`valid` in main.py) and the library
    behaviour the game rules lean on: pygame's `clamp_ip`, the rounding of a
    float centre back into an integer rect, and Python's `randrange`. */
module Playfield {

  const Width := 800
  const Height := 600
  const CenterX := Width / 2
  const CenterY := Height / 2

  /** pygame's `clamp_ip` along one axis: a box starting at `lo` with extent
      `size` is moved as little as possible to lie inside `[0, bound)`; a box
      at least as large as the bound is centred on it instead. */
  function Clamp(lo: int, size: nat, bound: nat): (r: int)
    ensures size < bound ==> 0 <= r && r + size <= bound
    ensures 0 <= lo && lo + size <= bound ==> r == lo
    ensures size < bound && lo < 0 ==> r == 0
    ensures size < bound && bound < lo + size ==> r == bound - size
  {
    if size >= bound then bound / 2 - size / 2
    else if lo < 0 then 0
    else if lo + size > bound then bound - size
    else lo
  }

  /** A conversion of an exact value `h` given in half-units (so the value
      is `h / 2` exactly) to an integer coordinate that lands on one of the
      integers nearest to it. Truncation, flooring and rounding to nearest
      all qualify; the model does not fix which one pygame uses. */
  ghost predicate IsRounding(toInt: int -> int)
  {
    forall h :: -1 <= 2 * toInt(h) - h <= 1
  }

  /** Any such conversion is exact on whole values. */
  lemma RoundingExact(toInt: int -> int, c: int)
    requires IsRounding(toInt)
    ensures toInt(2 * c) == c
  {
    assert -1 <= 2 * toInt(2 * c) - 2 * c <= 1;
  }

  /** The number of admissible results of `randrange(start, stop, step)`. */
  function RangeCount(start: int, stop: int, step: nat): (n: nat)
    requires 0 < step && start < stop
    ensures 0 < n && start + step * (n - 1) < stop <= start + step * n
  {
    var n := (stop - start + step - 1) / step;
    assert step * n <= stop - start + step - 1 < step * n + step;
    n
  }

  /** Multiplying by a natural number keeps order. */
  lemma MulMono(m: nat, x: int, y: int)
    requires x <= y
    ensures m * x <= m * y
  {
    assert m * y == m * x + m * (y - x);
  }

  /** Euclidean division is determined by its quotient and remainder. */
  lemma DivModUnique(a: int, m: nat, q: int, r: int)
    requires 0 < m && a == m * q + r && 0 <= r < m
    ensures a / m == q && a % m == r
  {
    var q', r' := a / m, a % m;
    assert m * q' + r' == m * q + r;
    assert m * (q - q') == r' - r by {
      assert m * q - m * q' == m * (q - q');
    }
    if q' < q {
      MulMono(m, 1, q - q');
    } else if q < q' {
      MulMono(m, 1, q' - q);
    }
  }

  /** Python's `randrange(start, stop, step)` for a positive step: `draw`
      stands for whatever the random generator produces, and selects one
      of the values `start, start + step, ...` below `stop`. */
  function RandRange(start: int, stop: int, step: nat, draw: nat): (r: int)
    requires 0 < step && start < stop
    ensures start <= r < stop && (r - start) % step == 0
  {
    var n := RangeCount(start, stop, step);
    var k := draw % n;
    MulMono(step, k, n - 1);
    DivModUnique(step * k, step, k, 0);
    start + step * k
  }

  /** Every admissible value of `randrange` is produced by some draw. */
  lemma RandRangeCovers(start: int, stop: int, step: nat, r: int)
    requires 0 < step && start <= r < stop && (r - start) % step == 0
    ensures RandRange(start, stop, step, (r - start) / step) == r
  {
    var k := (r - start) / step;
    var n := RangeCount(start, stop, step);
    assert r - start == step * k;
    if k < 0 {
      MulMono(step, k, -1);
    }
    if n <= k {
      MulMono(step, n, k);
    }
    DivModUnique(k, n, 0, k);
  }
}
