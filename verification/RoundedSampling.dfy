/** The positions of SampleTableUniform as they are computed, in floating point
    (cpp/src/cylon/util/arrow_utils.cpp:243-255). */
module RoundedSampling {
  import opened Division
  import opened Sampling

  const SINGLE_ERROR: real := 1.0 / 16777216.0
  const DOUBLE_ERROR: real := 1.0 / 9007199254740992.0

  /** Rounding to a floating-point format: it does not cross a number of the format, the whole
      numbers up to 2^24 belong to the format, and it errs by at most `error`, relatively, on
      numbers of the size that occurs here. */
  ghost predicate Rounds(round: real -> real, error: real) {
    && (forall x, y :: DoesNotCross(round, x, y))
    && (forall m :: Keeps(round, m))
    && forall x :: x >= 0.25 ==> ErrsBy(round, x, error)
  }

  predicate DoesNotCross(round: real -> real, x: real, y: real) {
    round(x) <= y ==> round(x) <= round(y)
  }

  const WHOLE_MAX: nat := 0x100_0000

  predicate Keeps(round: real -> real, m: nat) {
    m <= WHOLE_MAX ==> round(m as real) == m as real
  }

  predicate ErrsBy(round: real -> real, x: real, error: real) {
    x - x * error <= round(x) <= x + x * error
  }

  /** The quotient in double precision, before it is narrowed to single precision. */
  function Quotient(double: real -> real, n: nat, k: nat): real {
    double(double(n as real) / (k as real + 1.0))
  }

  /** `acc` after `i` additions of the step. */
  function Accumulated(single: real -> real, quotient: real, i: nat): real {
    if i == 0 then single(quotient) else single(Accumulated(single, quotient, i - 1) + single(quotient))
  }

  lemma Scale(x: real, y: real, m: real)
    requires x <= y && m >= 0.0
    ensures x * m <= y * m
  {
  }

  lemma QuotientAbove(x: real, d: real, low: real)
    requires d > 0.0 && x >= low * d
    ensures x / d >= low
  {
  }

  lemma QuotientBelow(x: real, y: real, d: real, factor: real)
    requires d > 0.0 && x <= y * factor
    ensures x / d <= y / d * factor
  {
    assert x / d * d == x && y / d * d == y;
  }

  /** The double-precision quotient and the exact one. */
  lemma QuotientBounds(double: real -> real, n: nat, k: nat)
    requires Rounds(double, DOUBLE_ERROR) && 0 < k <= n
    ensures var exact := n as real / (k as real + 1.0);
            exact * (1.0 - 3.0 * DOUBLE_ERROR) <= Quotient(double, n, k) <= exact * (1.0 + 3.0 * DOUBLE_ERROR)
    ensures 0.3 <= Quotient(double, n, k)
  {
    var rows, d := n as real, k as real + 1.0;
    var q := rows / d;
    assert 2.0 * rows >= d;
    assert ErrsBy(double, rows, DOUBLE_ERROR);
    QuotientAbove(double(rows), d, 0.4);
    QuotientBelow(double(rows), rows, d, 1.0 + DOUBLE_ERROR);
    var x := double(rows) / d;
    assert ErrsBy(double, x, DOUBLE_ERROR);
    QuotientAbove(rows, d, 0.5);
    assert double(x) <= q * (1.0 + DOUBLE_ERROR) * (1.0 + DOUBLE_ERROR);
    QuotientAbove(double(rows), d, q * (1.0 - DOUBLE_ERROR));
    Scale(q * (1.0 - DOUBLE_ERROR), x, 1.0 - DOUBLE_ERROR);
  }

  /** The step is at least 1/4, and at most a little above the quotient. */
  lemma StepBounds(single: real -> real, quotient: real, exact: real)
    requires Rounds(single, SINGLE_ERROR) && 0.3 <= quotient && exact > 0.0
    requires exact * (1.0 - 3.0 * DOUBLE_ERROR) <= quotient <= exact * (1.0 + 3.0 * DOUBLE_ERROR)
    ensures exact * (1.0 - 2.0 * SINGLE_ERROR) <= single(quotient) <= exact * (1.0 + 2.0 * SINGLE_ERROR)
    ensures 0.25 <= single(quotient)
  {
    assert ErrsBy(single, quotient, SINGLE_ERROR);
    assert quotient + quotient * SINGLE_ERROR == quotient * (1.0 + SINGLE_ERROR);
    Scale(quotient, exact * (1.0 + 3.0 * DOUBLE_ERROR), 1.0 + SINGLE_ERROR);
    assert (1.0 + 3.0 * DOUBLE_ERROR) * (1.0 + SINGLE_ERROR) <= 1.0 + 2.0 * SINGLE_ERROR;
    Scale((1.0 + 3.0 * DOUBLE_ERROR) * (1.0 + SINGLE_ERROR), 1.0 + 2.0 * SINGLE_ERROR, exact);
    assert quotient - quotient * SINGLE_ERROR == quotient * (1.0 - SINGLE_ERROR);
    Scale(exact * (1.0 - 3.0 * DOUBLE_ERROR), quotient, 1.0 - SINGLE_ERROR);
    assert 1.0 - 2.0 * SINGLE_ERROR <= (1.0 - 3.0 * DOUBLE_ERROR) * (1.0 - SINGLE_ERROR);
    Scale(1.0 - 2.0 * SINGLE_ERROR, (1.0 - 3.0 * DOUBLE_ERROR) * (1.0 - SINGLE_ERROR), exact);
  }

  /** The sums never decrease: what has been added up is a number of the format. */
  lemma {:induction false} AccumulatedAscends(single: real -> real, quotient: real, i: nat, j: nat)
    requires Rounds(single, SINGLE_ERROR) && single(quotient) >= 0.0 && i <= j
    ensures Accumulated(single, quotient, i) <= Accumulated(single, quotient, j)
  {
    if i < j {
      AccumulatedAscends(single, quotient, i, j - 1);
      OneMoreAscends(single, quotient, j - 1);
    }
  }

  lemma OneMoreAscends(single: real -> real, quotient: real, i: nat)
    requires Rounds(single, SINGLE_ERROR) && single(quotient) >= 0.0
    ensures Accumulated(single, quotient, i) <= Accumulated(single, quotient, i + 1)
  {
    var last := if i == 0 then quotient else Accumulated(single, quotient, i - 1) + single(quotient);
    assert Accumulated(single, quotient, i) == single(last);
    assert DoesNotCross(single, last, single(last) + single(quotient));
  }

  /** `i + 1` steps, and as many roundings. */
  function Ceiling(step: real, i: real): real {
    (i + 1.0) * step * (1.0 + i * (2.0 * SINGLE_ERROR))
  }

  lemma {:induction false} AccumulatedBound(single: real -> real, quotient: real, i: nat)
    requires Rounds(single, SINGLE_ERROR) && single(quotient) >= 0.25 && i <= 4096
    ensures Accumulated(single, quotient, i) <= Ceiling(single(quotient), i as real)
  {
    if i > 0 {
      AccumulatedBound(single, quotient, i - 1);
      AccumulatedAscends(single, quotient, 0, i - 1);
      var sum := Accumulated(single, quotient, i - 1) + single(quotient);
      assert ErrsBy(single, sum, SINGLE_ERROR);
      OneMoreRounding(sum - single(quotient), single(quotient), i as real, single(sum));
    }
  }

  lemma OneMoreRounding(sum: real, step: real, i: real, rounded: real)
    requires step >= 0.25 && 1.0 <= i <= 4096.0
    requires sum <= Ceiling(step, i - 1.0) && rounded <= sum + step + (sum + step) * SINGLE_ERROR
    ensures rounded <= Ceiling(step, i)
  {
    var before, after := 1.0 + (i - 1.0) * (2.0 * SINGLE_ERROR), 1.0 + i * (2.0 * SINGLE_ERROR);
    assert before * (1.0 + SINGLE_ERROR) <= after;
    Scale(1.0, before, step);
    var whole := (i + 1.0) * step;
    assert sum + step <= whole * before;
    Scale(sum + step, whole * before, 1.0 + SINGLE_ERROR);
    Scale(before * (1.0 + SINGLE_ERROR), after, whole);
  }

  const MOST_SAMPLES: nat := 2895

  /** With not too many samples the roundings do not reach the row count. */
  lemma CeilingBelow(rows: real, step: real, k: real)
    requires 1.0 <= k <= MOST_SAMPLES as real && rows >= 1.0
    requires 0.0 <= step <= rows / (k + 1.0) * (1.0 + 2.0 * SINGLE_ERROR)
    ensures Ceiling(step, k - 1.0) < rows
  {
    var e := 2.0 * SINGLE_ERROR;
    var q := rows / (k + 1.0);
    assert q * (k + 1.0) == rows && q > 0.0;
    var factor := k * (1.0 + (k - 1.0) * e);
    FactorBelow(k, e);
    Scale(step, q * (1.0 + e), factor);
    Regroup(step, q, k, e);
    StrictScale((1.0 + e) * factor, k + 1.0, q);
  }

  lemma StrictScale(x: real, y: real, m: real)
    requires x < y && m > 0.0
    ensures x * m < y * m
  {
  }

  lemma Regroup(step: real, q: real, k: real, e: real)
    requires e == 2.0 * SINGLE_ERROR
    ensures Ceiling(step, k - 1.0) == step * (k * (1.0 + (k - 1.0) * e))
    ensures q * (1.0 + e) * (k * (1.0 + (k - 1.0) * e)) == (1.0 + e) * (k * (1.0 + (k - 1.0) * e)) * q
  {
  }

  lemma FactorBelow(k: real, e: real)
    requires 1.0 <= k <= MOST_SAMPLES as real && e == 2.0 * SINGLE_ERROR
    ensures 0.0 <= k * (1.0 + (k - 1.0) * e)
    ensures (1.0 + e) * (k * (1.0 + (k - 1.0) * e)) < k + 1.0
  {
    var slope := k * (k + 1.0);
    Scale(k, MOST_SAMPLES as real, k + 1.0);
    assert slope <= 2895.0 * 2896.0;
    assert slope * e < 1.0;
    assert (1.0 + e) * (1.0 + (k - 1.0) * e) <= 1.0 + (k + 1.0) * e;
    Scale((1.0 + e) * (1.0 + (k - 1.0) * e), 1.0 + (k + 1.0) * e, k);
    assert (1.0 + (k + 1.0) * e) * k == k + slope * e;
  }

  /** The positions as they are computed. */
  function RoundedPosition(single: real -> real, double: real -> real, n: nat, k: nat, i: nat): int {
    Accumulated(single, Quotient(double, n, k), i).Floor
  }

  /** Whatever the rounding, up to 2895 samples the computed positions are in range and ascend:
      they meet the contract. */
  lemma RoundedPicks(single: real -> real, double: real -> real, n: nat, k: nat)
    requires Rounds(single, SINGLE_ERROR) && Rounds(double, DOUBLE_ERROR) && 0 < k <= n && k <= MOST_SAMPLES
    ensures forall i :: 0 <= i < k ==> 0 <= RoundedPosition(single, double, n, k, i) < n
    ensures forall i, j :: 0 <= i < j < k ==>
              RoundedPosition(single, double, n, k, i) <= RoundedPosition(single, double, n, k, j)
  {
    forall i: nat, j: nat | i <= j < k
      ensures 0 <= RoundedPosition(single, double, n, k, i) <= RoundedPosition(single, double, n, k, j) < n
    {
      RoundedInRange(single, double, n, k, i, j);
    }
  }

  lemma RoundedInRange(single: real -> real, double: real -> real, n: nat, k: nat, i: nat, j: nat)
    requires Rounds(single, SINGLE_ERROR) && Rounds(double, DOUBLE_ERROR) && i <= j < k <= n && k <= MOST_SAMPLES
    ensures 0 <= RoundedPosition(single, double, n, k, i) <= RoundedPosition(single, double, n, k, j) < n
  {
    var quotient := Quotient(double, n, k);
    LastBelow(single, double, n, k);
    AccumulatedAscends(single, quotient, 0, i);
    AccumulatedAscends(single, quotient, i, j);
    AccumulatedAscends(single, quotient, j, k - 1);
    FloorBetween(Accumulated(single, quotient, i), Accumulated(single, quotient, j), n);
  }

  lemma LastBelow(single: real -> real, double: real -> real, n: nat, k: nat)
    requires Rounds(single, SINGLE_ERROR) && Rounds(double, DOUBLE_ERROR) && 0 < k <= n && k <= MOST_SAMPLES
    ensures var quotient := Quotient(double, n, k);
            single(quotient) >= 0.25 && Accumulated(single, quotient, k - 1) < n as real
  {
    var quotient := Quotient(double, n, k);
    QuotientBounds(double, n, k);
    QuotientAbove(n as real, k as real + 1.0, 0.5);
    StepBounds(single, quotient, n as real / (k as real + 1.0));
    AccumulatedBound(single, quotient, k - 1);
    CeilingBelow(n as real, single(quotient), k as real);
    assert (k - 1) as real == k as real - 1.0;
  }

  lemma FloorBetween(x: real, y: real, n: nat)
    requires 0.0 <= x <= y < n as real
    ensures 0 <= x.Floor <= y.Floor < n
  {
  }

  // How far apart the positions are

  /** A sum stays above every whole number below it. */
  lemma WholeBelow(round: real -> real, error: real, x: real, m: nat)
    requires Rounds(round, error) && m <= WHOLE_MAX && m as real <= x
    ensures m as real <= round(x)
  {
    assert Keeps(round, m) && DoesNotCross(round, m as real, x);
  }

  lemma FloorAdds(x: real, y: real, m: int)
    requires x + m as real <= y
    ensures x.Floor + m <= y.Floor
  {
  }

  /** Fewer samples than rows: the step is at least the even share of rows. */
  lemma WholeStep(single: real -> real, double: real -> real, n: nat, k: nat, share: nat)
    requires Rounds(single, SINGLE_ERROR) && Rounds(double, DOUBLE_ERROR)
    requires share * (k + 1) <= n < WHOLE_MAX
    ensures share as real <= single(Quotient(double, n, k))
  {
    assert Keeps(double, n);
    assert share <= n by { assert share * (k + 1) >= share; }
    assert (share * (k + 1)) as real == share as real * (k as real + 1.0);
    QuotientAbove(n as real, k as real + 1.0, share as real);
    WholeBelow(double, DOUBLE_ERROR, n as real / (k as real + 1.0), share);
    WholeBelow(single, SINGLE_ERROR, Quotient(double, n, k), share);
  }

  lemma SmallTableStep(single: real -> real, double: real -> real, n: nat, k: nat, i: nat, share: nat)
    requires Rounds(single, SINGLE_ERROR) && Rounds(double, DOUBLE_ERROR)
    requires 0 < k < n < WHOLE_MAX && k <= MOST_SAMPLES && i < k - 1 && share * (k + 1) <= n
    ensures RoundedPosition(single, double, n, k, i) + share <= RoundedPosition(single, double, n, k, i + 1)
  {
    var quotient := Quotient(double, n, k);
    var sum := Accumulated(single, quotient, i);
    WholeStep(single, double, n, k, share);
    RoundedInRange(single, double, n, k, i, i + 1);
    var m := sum.Floor + share;
    assert m as real <= sum + single(quotient);
    if m <= WHOLE_MAX {
      WholeBelow(single, SINGLE_ERROR, sum + single(quotient), m);
    } else {
      WholeBelow(single, SINGLE_ERROR, sum + single(quotient), WHOLE_MAX);
      assert false;
    }
  }

  /** In a large table half the even share of rows is a safe distance. */
  lemma LargeTableStart(single: real -> real, double: real -> real, n: nat, k: nat)
    requires Rounds(single, SINGLE_ERROR) && Rounds(double, DOUBLE_ERROR)
    requires WHOLE_MAX <= n && 0 < k <= MOST_SAMPLES
    ensures n as real / (k as real + 1.0) * (1.0 - 2.0 * SINGLE_ERROR) <= single(Quotient(double, n, k))
    ensures 0x80_0000 / (k + 1) <= RoundedPosition(single, double, n, k, 0)
  {
    HalfShare(n, k);
    QuotientBounds(double, n, k);
    StepBounds(single, Quotient(double, n, k), n as real / (k as real + 1.0));
    FloorAdds(0.0, single(Quotient(double, n, k)), 0x80_0000 / (k + 1));
  }

  lemma LargeTableStep(single: real -> real, double: real -> real, n: nat, k: nat, i: nat)
    requires Rounds(single, SINGLE_ERROR) && Rounds(double, DOUBLE_ERROR)
    requires WHOLE_MAX <= n && k <= MOST_SAMPLES && i < k - 1
    ensures RoundedPosition(single, double, n, k, i) + 0x80_0000 / (k + 1) <=
            RoundedPosition(single, double, n, k, i + 1)
  {
    var quotient := Quotient(double, n, k);
    var sum := Accumulated(single, quotient, i);
    var x := sum + single(quotient);
    LargeTableStart(single, double, n, k);
    LastBelow(single, double, n, k);
    AccumulatedAscends(single, quotient, 0, i);
    AccumulatedAscends(single, quotient, i + 1, k - 1);
    assert ErrsBy(single, x, SINGLE_ERROR);
    HalfShare(n, k);
    LargeSum(sum, single(quotient), n as real, n as real / (k as real + 1.0), k as real + 1.0, single(x));
    FloorAdds(sum, single(x), 0x80_0000 / (k + 1));
  }

  lemma HalfShare(n: nat, k: nat)
    requires WHOLE_MAX <= n && k <= MOST_SAMPLES
    ensures var exact := n as real / (k as real + 1.0);
            exact >= 1.0 && exact * (k as real + 1.0) == n as real &&
            (0x80_0000 / (k + 1)) as real <= exact * 0.5
  {
    var exact, half := n as real / (k as real + 1.0), 0x80_0000 / (k + 1);
    DivMod(0x80_0000, k + 1);
    assert (half * (k + 1)) as real == half as real * (k as real + 1.0);
    QuotientAbove(n as real, k as real + 1.0, 2.0 * half as real);
    QuotientAbove(n as real, k as real + 1.0, 1.0);
  }

  lemma LargeSum(sum: real, step: real, rows: real, exact: real, d: real, rounded: real)
    requires sum >= 0.0 && 1.0 <= d <= 2896.0 && exact >= 1.0 && exact * d == rows
    requires exact * (1.0 - 2.0 * SINGLE_ERROR) <= step
    requires sum + step - (sum + step) * SINGLE_ERROR <= rounded < rows
    ensures sum + exact * 0.5 <= rounded
  {
    assert (sum + step) * (1.0 - SINGLE_ERROR) < rows;
    assert sum + step < 2.0 * rows;
    Scale(sum + step, 2.0 * rows, SINGLE_ERROR);
    Scale(d, 2896.0, exact);
    assert rows <= 2896.0 * exact;
  }

  // Sampling all rows

  /** At least `i + 1` steps, less the roundings. */
  function Ground(step: real, i: real): real {
    (i + 1.0) * step * (1.0 - i * SINGLE_ERROR)
  }

  lemma {:induction false} AccumulatedAbove(single: real -> real, quotient: real, i: nat)
    requires Rounds(single, SINGLE_ERROR) && single(quotient) >= 0.25 && i <= 4096
    ensures Ground(single(quotient), i as real) <= Accumulated(single, quotient, i)
  {
    if i > 0 {
      AccumulatedAbove(single, quotient, i - 1);
      AccumulatedAscends(single, quotient, 0, i - 1);
      var sum := Accumulated(single, quotient, i - 1) + single(quotient);
      assert ErrsBy(single, sum, SINGLE_ERROR);
      OneMoreRoundingDown(sum - single(quotient), single(quotient), i as real, single(sum));
    }
  }

  lemma OneMoreRoundingDown(sum: real, step: real, i: real, rounded: real)
    requires step >= 0.25 && 1.0 <= i <= 4096.0
    requires Ground(step, i - 1.0) <= sum && sum + step - (sum + step) * SINGLE_ERROR <= rounded
    ensures Ground(step, i) <= rounded
  {
    var before, after := 1.0 - (i - 1.0) * SINGLE_ERROR, 1.0 - i * SINGLE_ERROR;
    assert after <= before * (1.0 - SINGLE_ERROR);
    Scale(before, 1.0, step);
    var whole := (i + 1.0) * step;
    assert whole * before <= sum + step;
    Scale(whole * before, sum + step, 1.0 - SINGLE_ERROR);
    Scale(after, before * (1.0 - SINGLE_ERROR), whole);
  }

  const MOST_OF_ALL: nat := 255

  /** Up to 255 rows, sampling all rows takes every one of them. */
  lemma RoundedAll(single: real -> real, double: real -> real, n: nat, i: nat)
    requires Rounds(single, SINGLE_ERROR) && Rounds(double, DOUBLE_ERROR)
    requires i < n <= MOST_OF_ALL
    ensures RoundedPosition(single, double, n, n, i) == i
  {
    var quotient, exact := Quotient(double, n, n), n as real / (n as real + 1.0);
    QuotientBounds(double, n, n);
    QuotientAbove(n as real, n as real + 1.0, 0.5);
    StepBounds(single, quotient, exact);
    AccumulatedBound(single, quotient, i);
    AccumulatedAbove(single, quotient, i);
    BetweenWholes(single(quotient), exact, n as real, i as real);
  }

  lemma BetweenWholes(step: real, exact: real, n: real, i: real)
    requires 0.0 <= i <= n - 1.0 && 1.0 <= n <= 255.0 && exact == n / (n + 1.0)
    requires exact * (1.0 - 2.0 * SINGLE_ERROR) <= step <= exact * (1.0 + 2.0 * SINGLE_ERROR)
    ensures i <= Ground(step, i) && Ceiling(step, i) < i + 1.0
  {
    var gap, sum := 1.0 - exact, (i + 1.0) * exact;
    GapOfShare(n, exact);
    SumOfShares(exact, n, i);
    GroundAbove(step, exact, i, sum);
    GroundError(sum, i);
    CeilingUnder(step, exact, i, sum);
    CeilingError(sum, i, gap);
  }

  lemma SumOfShares(exact: real, n: real, i: real)
    requires 0.0 <= i <= n - 1.0 && 0.0 <= exact <= 1.0 && n * (1.0 - exact) == exact
    ensures (i + 1.0) * exact == i + 1.0 - (i + 1.0) * (1.0 - exact)
    ensures 0.0 <= (i + 1.0) * (1.0 - exact) <= exact
  {
    Scale(i + 1.0, n, 1.0 - exact);
  }

  lemma GroundError(sum: real, i: real)
    requires 0.0 <= sum <= 255.0 && 0.0 <= i <= 254.0
    ensures sum * (i + 2.0) * SINGLE_ERROR <= 1.0 / 256.0
  {
    SmallError(sum, 255.0, i + 2.0, 256.0);
    Scale(sum * (i + 2.0), 255.0 * 256.0, SINGLE_ERROR);
  }

  lemma CeilingError(sum: real, i: real, gap: real)
    requires 0.0 <= sum <= i + 1.0 <= 255.0 && gap >= 1.0 / 256.0 && i >= 0.0
    ensures sum * ((2.0 * i + 3.0) * SINGLE_ERROR) < (i + 1.0) * gap
  {
    var error := (2.0 * i + 3.0) * SINGLE_ERROR;
    Scale(2.0 * i + 3.0, 513.0, SINGLE_ERROR);
    assert 0.0 <= error < gap;
    Scale(sum, i + 1.0, error);
    StrictScale(error, gap, i + 1.0);
  }

  lemma GapOfShare(n: real, exact: real)
    requires 1.0 <= n <= 255.0 && exact == n / (n + 1.0)
    ensures n * (1.0 - exact) == exact && 1.0 / 256.0 <= 1.0 - exact <= 0.5
  {
    assert exact * (n + 1.0) == n;
    assert exact * n + exact == n;
    QuotientBelow(n, n + 1.0, n + 1.0, 255.0 / 256.0);
    QuotientAbove(n, n + 1.0, 0.5);
  }

  lemma SmallError(x: real, xMax: real, y: real, yMax: real)
    requires 0.0 <= x <= xMax && 0.0 <= y <= yMax
    ensures 0.0 <= x * y <= xMax * yMax
  {
    Scale(x, xMax, y);
    Scale(y, yMax, xMax);
  }

  lemma GroundAbove(step: real, exact: real, i: real, sum: real)
    requires exact * (1.0 - 2.0 * SINGLE_ERROR) <= step && 0.0 <= i <= 255.0 && exact >= 0.0
    requires sum == (i + 1.0) * exact
    ensures sum - sum * (i + 2.0) * SINGLE_ERROR <= Ground(step, i)
  {
    var u := SINGLE_ERROR;
    var one, all, rest := 1.0 - 2.0 * u, 1.0 - i * u, (i + 1.0) * (1.0 - i * u);
    Scale(i, 255.0, u);
    SmallError(i + 1.0, 256.0, all, 1.0);
    Scale(exact * one, step, rest);
    assert 1.0 - (i + 2.0) * u <= one * all;
    Scale(1.0 - (i + 2.0) * u, one * all, sum);
    Regrouped(exact, one, i + 1.0, all);
    Regrouped(step, 1.0, i + 1.0, all);
    Distributed(sum, i + 2.0, u);
  }

  lemma Regrouped(x: real, y: real, m: real, z: real)
    ensures x * y * (m * z) == y * z * (m * x) == m * x * (y * z)
  {
    assert x * y * (m * z) == (x * m) * (y * z);
  }

  lemma Distributed(sum: real, m: real, u: real)
    ensures (1.0 - m * u) * sum == sum - sum * m * u
  {
  }

  lemma CeilingUnder(step: real, exact: real, i: real, sum: real)
    requires step <= exact * (1.0 + 2.0 * SINGLE_ERROR) && 0.0 <= i <= 255.0 && exact >= 0.0
    requires sum == (i + 1.0) * exact
    ensures Ceiling(step, i) <= sum + sum * ((2.0 * i + 3.0) * SINGLE_ERROR)
  {
    var u := SINGLE_ERROR;
    var one, all, rest := 1.0 + 2.0 * u, 1.0 + i * (2.0 * u), (i + 1.0) * (1.0 + i * (2.0 * u));
    SmallError(i, 255.0, 2.0 * u, 1.0);
    SmallError(i + 1.0, 256.0, all, 256.0);
    Scale(step, exact * one, rest);
    assert one * all <= 1.0 + (2.0 * i + 3.0) * u;
    Scale(one * all, 1.0 + (2.0 * i + 3.0) * u, sum);
    Regrouped(exact, one, i + 1.0, all);
    Regrouped(step, 1.0, i + 1.0, all);
    Distributed(sum, -(2.0 * i + 3.0), u);
    assert sum * -(2.0 * i + 3.0) * u == -(sum * ((2.0 * i + 3.0) * u));
  }

  // The contract of the sort

  /** Where the rounded positions are known to be spread. */
  predicate KnownSpread(n: nat, k: nat) {
    0 < k <= n && k <= MOST_SAMPLES && (k < n || n <= MOST_OF_ALL)
  }

  function RowNumber(position: int): nat {
    if position < 0 then 0 else position
  }

  /** The positions as they are computed, where they are known to be spread. */
  function RoundedPositions(single: real -> real, double: real -> real): (nat, nat) -> seq<nat> {
    (n, k) => if KnownSpread(n, k) then ComputedPositions(single, double, n, k) else UniformPositions(n, k)
  }

  function ComputedPositions(single: real -> real, double: real -> real, n: nat, k: nat): seq<nat> {
    seq(k, i requires 0 <= i < k => RowNumber(RoundedPosition(single, double, n, k, i)))
  }

  /** Whatever the rounding, up to 2895 samples of a larger table, and all rows of a table of
      up to 255, are taken at spread positions. */
  lemma RoundedSpreads(single: real -> real, double: real -> real)
    requires Rounds(single, SINGLE_ERROR) && Rounds(double, DOUBLE_ERROR)
    ensures Spreads(RoundedPositions(single, double))
  {
    forall n: nat, k: nat | 0 < k <= n
      ensures Spread(RoundedPositions(single, double)(n, k), n, k)
    {
      if KnownSpread(n, k) {
        RoundedSpread(single, double, n, k, ComputedPositions(single, double, n, k));
      } else {
        UniformSpread(n, k);
      }
    }
  }

  lemma RoundedSpread(single: real -> real, double: real -> real, n: nat, k: nat, p: seq<nat>)
    requires Rounds(single, SINGLE_ERROR) && Rounds(double, DOUBLE_ERROR) && KnownSpread(n, k) && |p| == k
    requires forall i :: 0 <= i < k ==> p[i] == RowNumber(RoundedPosition(single, double, n, k, i))
    ensures Spread(p, n, k)
  {
    RoundedPicks(single, double, n, k);
    forall i: nat | i < k - 1
      ensures p[i] + Stride(n, k) <= p[i + 1]
    {
      RoundedKeeps(single, double, n, k, i);
    }
    forall i: nat, j: nat | i < j < k
      ensures p[i] + Stride(n, k) <= p[j]
    {
      StepsKeep(p, Stride(n, k), i, j);
    }
    if k < n {
      RoundedKeeps(single, double, n, k, 0);
    }
  }

  lemma RoundedKeeps(single: real -> real, double: real -> real, n: nat, k: nat, i: nat)
    requires Rounds(single, SINGLE_ERROR) && Rounds(double, DOUBLE_ERROR) && KnownSpread(n, k) && i < k
    ensures i < k - 1 ==>
              RoundedPosition(single, double, n, k, i) + Stride(n, k) <= RoundedPosition(single, double, n, k, i + 1)
    ensures k < n ==> Stride(n, k) <= RoundedPosition(single, double, n, k, 0)
  {
    if k == n {
      StrideOfAll(n);
      RoundedAll(single, double, n, i);
      if i < k - 1 {
        RoundedAll(single, double, n, i + 1);
      }
    } else if n < WHOLE_MAX {
      StrideFits(n, k);
      WholeStep(single, double, n, k, Stride(n, k));
      FloorAdds(0.0, single(Quotient(double, n, k)), Stride(n, k));
      if i < k - 1 {
        SmallTableStep(single, double, n, k, i, Stride(n, k));
      }
    } else {
      StrideOfLarge(n, k);
      LargeTableStart(single, double, n, k);
      if i < k - 1 {
        LargeTableStep(single, double, n, k, i);
      }
    }
  }

  lemma StrideFits(n: nat, k: nat)
    requires 0 < k < n
    ensures Stride(n, k) * (k + 1) <= n
  {
    StrideBelow(n, k);
    DivMod(n, k + 1);
    var share := n / (k + 1);
    assert Stride(n, k) * (k + 1) <= share * (k + 1);
  }

  lemma StrideOfLarge(n: nat, k: nat)
    requires WHOLE_MAX <= n && 0 < k <= MOST_SAMPLES
    ensures Stride(n, k) == 0x80_0000 / (k + 1)
  {
    DivMonotone(k + 1, 0x80_0000, k + 1);
    DivBounds(k + 1, k + 1, 1);
  }

  // Too many samples

  /** Between 2^24 and 2^25 the format holds the even numbers; an odd one goes to the neighbour
      that is a multiple of four. */
  predicate TiesToEven(single: real -> real, m: nat) {
    0x40_0000 <= m < 0x80_0000 ==>
      var x := 4.0 * m as real;
      single(x + 1.0) == x && single(x + 2.0) == x + 2.0 && single(x + 3.0) == x + 4.0
  }

  lemma {:induction false} ThreesExact(single: real -> real, quotient: real, i: nat)
    requires Rounds(single, SINGLE_ERROR) && single(quotient) == 3.0 && 3 * (i + 1) <= WHOLE_MAX
    ensures Accumulated(single, quotient, i) == (3 * (i + 1)) as real
  {
    if i > 0 {
      ThreesExact(single, quotient, i - 1);
      assert Keeps(single, 3 * (i + 1));
      assert (3 * i) as real + 3.0 == (3 * (i + 1)) as real;
    }
  }

  /** Steps of 3 become steps of 4 beyond 2^24: in a table of 16777236 rows the last of 5592411
      samples is taken behind the last row. */
  lemma SamplesPastEnd(single: real -> real, double: real -> real)
    requires Rounds(single, SINGLE_ERROR) && Rounds(double, DOUBLE_ERROR)
    requires double(16_777_236.0) == 16_777_236.0 && forall m :: TiesToEven(single, m)
    ensures RoundedPosition(single, double, 16_777_236, 5_592_411, 5_592_410) == 16_777_236
  {
    var quotient := Quotient(double, 16_777_236, 5_592_411);
    assert Keeps(double, 3) && Keeps(single, 3);
    assert quotient == 3.0;
    ThreesExact(single, quotient, 5_592_404);
    assert TiesToEven(single, 0x40_0000) && TiesToEven(single, 0x40_0001) && TiesToEven(single, 0x40_0002);
    assert TiesToEven(single, 0x40_0003) && TiesToEven(single, 0x40_0004);
    assert Accumulated(single, quotient, 5_592_405) == 16_777_218.0;
    assert Accumulated(single, quotient, 5_592_406) == 16_777_220.0;
    assert Accumulated(single, quotient, 5_592_407) == 16_777_224.0;
    assert Accumulated(single, quotient, 5_592_408) == 16_777_228.0;
    assert Accumulated(single, quotient, 5_592_409) == 16_777_232.0;
    assert Accumulated(single, quotient, 5_592_410) == 16_777_236.0;
  }
}
