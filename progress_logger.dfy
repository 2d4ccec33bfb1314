/**
 * The benchmark's console progress bar (`ProgressLogger` of the reporters):
 * a bar of LENGTH - 2 cells, the first `count` of them filled, where `count`
 * is (LENGTH - 2)·progress/max rounded half up. The stream is modelled as the
 * string written to it so far.
 *
 * The source's integer widths are written out: `progress` is an unsigned
 * 64-bit value, `max`, `count` and the cell counts are unsigned 32-bit.
 */
module ProgressLoggers {
  import opened Arithmetic

  const LENGTH: nat := 80
  /** The number of cells of the bar. */
  const CELLS: nat := LENGTH - 2
  const U32: nat := 0x1_0000_0000
  const U64: nat := 0x1_0000_0000_0000_0000
  const FULL: char := '\U{2588}'
  const EMPTY: char := '\U{2591}'

  /** The divisor 2·max, computed in 32 bits, is not zero. */
  predicate GoodMax(max: nat) {
    0 < max < U32 && (2 * max) % U32 != 0
  }

  /**
   * The number of filled cells at progress `p`: (2·CELLS·p + max) / (2·max),
   * the numerator in 64 bits, the divisor and the result in 32 bits.
   */
  function Count(p: nat, max: nat): (count: nat)
    requires GoodMax(max) && p < U64
    ensures count < U32
  {
    ((2 * CELLS * p + max) % U64) / ((2 * max) % U32) % U32
  }

  /** The divisor 2·max fits in 32 bits, so nothing wraps up to progress `max`. */
  predicate SmallMax(max: nat) {
    0 < max && 2 * max < U32
  }

  /** (2·CELLS·p + max) / (2·max) is at most CELLS and within max of CELLS·p/max scaled by 2·max. */
  lemma Rounding(p: nat, max: nat)
    requires SmallMax(max) && p <= max
    ensures var q := (2 * CELLS * p + max) / (2 * max);
      q <= CELLS && 2 * max * q <= 2 * CELLS * p + max < 2 * max * q + 2 * max
  {
    var a, d := 2 * CELLS * p + max, 2 * max;
    var q := a / d;
    assert d * q <= a < d * q + d;
    if q > CELLS {
      MulMonotone(d, CELLS + 1, q);
    }
  }

  /** Up to `max`, the count is CELLS·p/max rounded to the nearest integer, halves up. */
  lemma CountRounds(p: nat, max: nat)
    requires SmallMax(max) && p <= max
    ensures GoodMax(max) && Count(p, max) <= CELLS
    ensures 2 * max * Count(p, max) <= 2 * CELLS * p + max < 2 * max * Count(p, max) + 2 * max
  {
    Rounding(p, max);
    var a, d := 2 * CELLS * p + max, 2 * max;
    DivModUnique(d, U32, 0, d);
    DivModUnique(a, U64, 0, a);
    DivModUnique(a / d, U32, 0, a / d);
  }

  /** Two counts whose rounding bounds are ordered by their progress are ordered. */
  lemma RoundedOrder(max: nat, p: nat, p': nat, c: nat, c': nat)
    requires 0 < max && p <= p'
    requires 2 * max * c <= 2 * CELLS * p + max < 2 * max * c + 2 * max
    requires 2 * max * c' <= 2 * CELLS * p' + max < 2 * max * c' + 2 * max
    ensures c <= c'
    ensures 2 * CELLS * (p' - p) <= 2 * max ==> c' <= c + 1
  {
    if c' < c {
      MulMonotone(2 * max, c' + 1, c);
    }
    if 2 * CELLS * (p' - p) <= 2 * max && c' > c + 1 {
      MulMonotone(2 * max, c + 2, c');
    }
  }

  /** An empty bar at the start and a full one at `max`. */
  lemma CountEnds(max: nat)
    requires SmallMax(max)
    ensures GoodMax(max) && Count(0, max) == 0 && Count(max, max) == CELLS
  {
    var d := 2 * max;
    DivModUnique(d, U32, 0, d);
    DivModUnique(max, U64, 0, max);
    DivModUnique(max, d, 0, max);
    var a := 2 * CELLS * max + max;
    DivModUnique(a, U64, 0, a);
    DivModUnique(a, d, CELLS, max);
    DivModUnique(CELLS, U32, 0, CELLS);
  }

  /** More progress never fills fewer cells, up to `max`. */
  lemma CountMonotone(p: nat, p': nat, max: nat)
    requires SmallMax(max) && p <= p' <= max
    ensures GoodMax(max) && Count(p, max) <= Count(p', max)
  {
    CountRounds(p, max);
    CountRounds(p', max);
    RoundedOrder(max, p, p', Count(p, max), Count(p', max));
  }

  /** With at least as many steps as cells, one step fills at most one more cell. */
  lemma CountStep(p: nat, max: nat)
    requires SmallMax(max) && p < max && max >= CELLS
    ensures GoodMax(max) && Count(p, max) <= Count(p + 1, max) <= Count(p, max) + 1
  {
    CountRounds(p, max);
    CountRounds(p + 1, max);
    RoundedOrder(max, p, p + 1, Count(p, max), Count(p + 1, max));
  }

  /** `n` copies of `c`. */
  function Cells(c: char, n: nat): (s: string)
    ensures |s| == n && forall k :: 0 <= k < n ==> s[k] == c
  {
    if n == 0 then [] else Cells(c, n - 1) + [c]
  }

  /** The number of empty cells, LENGTH - 2 - count in unsigned 32-bit arithmetic. */
  function Empties(count: nat): nat
    requires count < U32
  {
    (CELLS - count) % U32
  }

  /** What one redraw writes: a carriage return, the filled cells, the empty ones. */
  function Bar(count: nat): string
    requires count < U32
  {
    ['\r'] + Cells(FULL, count) + Cells(EMPTY, Empties(count))
  }

  /** A bar of at most CELLS filled cells has exactly CELLS cells, `count` of them filled. */
  lemma BarLayout(count: nat)
    requires count <= CELLS
    ensures |Bar(count)| == CELLS + 1 && Bar(count)[0] == '\r'
    ensures forall k :: 1 <= k <= CELLS ==> Bar(count)[k] == if k <= count then FULL else EMPTY
  {
    DivModUnique(CELLS - count, U32, 0, CELLS - count);
  }

  /**
   * Past CELLS filled cells the empty-cell count wraps around: the bar is
   * 2^32 + CELLS + 1 characters long.
   */
  lemma BarOverflow(count: nat)
    requires CELLS < count < U32
    ensures |Bar(count)| == U32 + CELLS + 1
  {
    DivModUnique(CELLS - count, U32, -1, U32 + CELLS - count);
  }

  /** `set(p)` redraws when the count changes or the old progress is zero. */
  predicate Redraws(progress: nat, p: nat, max: nat)
    requires GoodMax(max) && progress < U64 && p < U64
  {
    Count(progress, max) != Count(p, max) || progress == 0
  }

  /** Setting the same non-zero progress again writes nothing. */
  lemma SetAgainIsQuiet(p: nat, max: nat)
    requires GoodMax(max) && 0 < p < U64
    ensures !Redraws(p, p, max)
  {
  }

  class ProgressLogger {
    const max: nat
    /** `progress`: the last value given to `set`. */
    var progress: nat
    /** Everything written to the stream so far. */
    var output: string

    ghost predicate Valid()
      reads this
    {
      GoodMax(max) && progress < U64
    }

    /** `ProgressLogger(stream, max)`: progress 0, drawn once (the empty bar). */
    constructor (max: nat)
      requires GoodMax(max)
      ensures Valid() && this.max == max && progress == 0 && output == Bar(Count(0, max))
    {
      this.max := max;
      progress := 0;
      output := [];
      new;
      Set(progress);
    }

    /**
     * `set(p)`: redraw the bar for `p` when its count differs from the old
     * one or the old progress is zero; then progress becomes `p`.
     */
    method Set(p: nat)
      requires Valid() && p < U64
      modifies this
      ensures Valid() && progress == p
      ensures output == old(output) + if Redraws(old(progress), p, max) then Bar(Count(p, max)) else []
    {
      var oldCount := Count(progress, max);
      var count := Count(p, max);
      if oldCount != count || progress == 0 {
        ghost var before := output;
        output := output + ['\r'];
        for i := 0 to count
          invariant output == before + ['\r'] + Cells(FULL, i)
        {
          output := output + [FULL];
        }
        var empties := (CELLS - count) % U32;
        for i := 0 to empties
          invariant output == before + ['\r'] + Cells(FULL, count) + Cells(EMPTY, i)
        {
          output := output + [EMPTY];
        }
      }
      progress := p;
    }

    /** `increment()`: `set(progress + 1)`, the sum in 64 bits. */
    method Increment()
      requires Valid()
      modifies this
      ensures Valid() && progress == (old(progress) + 1) % U64
      ensures output == old(output) + if Redraws(old(progress), progress, max) then Bar(Count(progress, max)) else []
    {
      Set((progress + 1) % U64);
    }
  }
}
