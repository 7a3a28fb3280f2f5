/** `rtdepr::aggregated`: points combined by a weighted average in integers. */
module WeightedAverage {
  import opened Arithmetic

  datatype Values = Values(avg: int, count: int, perc50: int, perc80: int, perc95: int, perc99: int, perc100: int)

  const ZERO := Values(0, 0, 0, 0, 0, 0, 0)

  datatype Measure = Avg | Perc50 | Perc80 | Perc95 | Perc99 | Perc100

  function At(v: Values, m: Measure): int {
    match m
    case Avg => v.avg
    case Perc50 => v.perc50
    case Perc80 => v.perc80
    case Perc95 => v.perc95
    case Perc99 => v.perc99
    case Perc100 => v.perc100
  }

  function Weigh(left: int, leftCount: int, right: int, rightCount: int): int
    requires leftCount + rightCount != 0
  {
    TruncDiv(left * leftCount + right * rightCount, leftCount + rightCount)
  }

  function Plus(left: Values, right: Values): Values
    requires right.count == 0 || left.count + right.count != 0
  {
    if right.count == 0 then left
    else
      Values(
        avg := Weigh(left.avg, left.count, right.avg, right.count),
        count := left.count + right.count,
        perc50 := Weigh(left.perc50, left.count, right.perc50, right.count),
        perc80 := Weigh(left.perc80, left.count, right.perc80, right.count),
        perc95 := Weigh(left.perc95, left.count, right.perc95, right.count),
        perc99 := Weigh(left.perc99, left.count, right.perc99, right.count),
        perc100 := Weigh(left.perc100, left.count, right.perc100, right.count))
  }

  class Aggregated {
    var avg: int
    var count: int
    var perc50: int
    var perc80: int
    var perc95: int
    var perc99: int
    var perc100: int

    function Value(): Values
      reads this
    {
      Values(avg, count, perc50, perc80, perc95, perc99, perc100)
    }

    constructor ()
      ensures Value() == ZERO
    {
      avg, count, perc50, perc80, perc95, perc99, perc100 := 0, 0, 0, 0, 0, 0, 0;
    }

    /** `operator +=`. */
    method AddAssign(right: Values)
      requires right.count == 0 || count + right.count != 0
      modifies this
      ensures Value() == Plus(old(Value()), right)
    {
      var total := count + right.count;
      if right.count == 0 {
        return;
      }
      avg := TruncDiv(avg * count + right.avg * right.count, total);
      perc50 := TruncDiv(perc50 * count + right.perc50 * right.count, total);
      perc80 := TruncDiv(perc80 * count + right.perc80 * right.count, total);
      perc95 := TruncDiv(perc95 * count + right.perc95 * right.count, total);
      perc99 := TruncDiv(perc99 * count + right.perc99 * right.count, total);
      perc100 := TruncDiv(perc100 * count + right.perc100 * right.count, total);
      count := total;
    }
  }

  // ----- folding non-negative points into a zero one

  ghost predicate NotNegative(x: Values) { x.count >= 0 && forall m :: At(x, m) >= 0 }

  ghost predicate AllNotNegative(xs: seq<Values>) { forall i :: 0 <= i < |xs| ==> NotNegative(xs[i]) }

  function Total(xs: seq<Values>): int {
    if xs == [] then 0 else Total(xs[..|xs| - 1]) + xs[|xs| - 1].count
  }

  /** The exact weighted sum. */
  function WeightedSum(xs: seq<Values>, m: Measure): int {
    if xs == [] then 0 else WeightedSum(xs[..|xs| - 1], m) + At(xs[|xs| - 1], m) * xs[|xs| - 1].count
  }

  /** What rounding can lose: less than the running total at every point that counts. */
  function Drift(xs: seq<Values>): int {
    if xs == [] then 0 else Drift(xs[..|xs| - 1]) + if xs[|xs| - 1].count == 0 then 0 else Total(xs) - 1
  }

  lemma {:induction false} TotalNotNegative(xs: seq<Values>)
    requires AllNotNegative(xs)
    ensures Total(xs) >= 0
  {
    if xs != [] { TotalNotNegative(xs[..|xs| - 1]); }
  }

  /** `+=` of the points one after the other. */
  function Fold(xs: seq<Values>): (r: Values)
    requires AllNotNegative(xs)
    ensures r.count == Total(xs)
  {
    if xs == [] then ZERO
    else
      TotalNotNegative(xs[..|xs| - 1]);
      Plus(Fold(xs[..|xs| - 1]), xs[|xs| - 1])
  }

  lemma WeighBounds(v: int, t: int, a: int, c: int)
    requires v >= 0 && t >= 0 && a >= 0 && c > 0
    ensures var w := Weigh(v, t, a, c);
            w >= 0 && v * t + a * c - (t + c - 1) <= w * (t + c) <= v * t + a * c
  {
    MulMonotone(0, v, t);
    MulMonotone(0, a, c);
    var n, d := v * t + a * c, t + c;
    DivBounds(n, d);
  }

  lemma DivBounds(n: int, d: int)
    requires n >= 0 && d > 0
    ensures n / d >= 0 && n - (d - 1) <= (n / d) * d <= n
  {
    assert n == (n / d) * d + n % d;
  }

  lemma MulMonotone(a: int, b: int, d: int)
    requires a <= b && d >= 0
    ensures a * d <= b * d
  {
  }

  lemma WeighMonotone(v: int, v': int, t: int, a: int, a': int, c: int)
    requires 0 <= v <= v' && t >= 0 && 0 <= a <= a' && c > 0
    ensures Weigh(v, t, a, c) <= Weigh(v', t, a', c)
  {
    var n, n', d := v * t + a * c, v' * t + a' * c, t + c;
    MulMonotone(0, v, t);
    MulMonotone(v, v', t);
    MulMonotone(0, a, c);
    MulMonotone(a, a', c);
    DivMonotone(n, n', d);
  }

  lemma DivMonotone(n: int, n': int, d: int)
    requires 0 <= n <= n' && d > 0
    ensures n / d <= n' / d
  {
    DivBounds(n, d);
    DivBounds(n', d);
    if n / d > n' / d {
      MulMonotone(n' / d + 1, n / d, d);
    }
  }

  lemma WeighSame(v: int, t: int, c: int)
    requires v >= 0 && t >= 0 && c > 0
    ensures Weigh(v, t, v, c) == v
  {
    var n, d := v * t + v * c, t + c;
    assert n == v * d;
    MulMonotone(0, v, d);
    DivExact(v, d);
  }

  lemma DivExact(v: int, d: int)
    requires v >= 0 && d > 0
    ensures (v * d) / d == v
  {
    MulMonotone(0, v, d);
    DivBounds(v * d, d);
    var q := (v * d) / d;
    if q < v {
      MulMonotone(q + 1, v, d);
    } else if q > v {
      MulMonotone(v + 1, q, d);
    }
  }

  /** The folded value times the total count lies within the drift below the exact sum. */
  lemma {:induction false} FoldBound(xs: seq<Values>, m: Measure)
    requires AllNotNegative(xs)
    ensures At(Fold(xs), m) >= 0
    ensures WeightedSum(xs, m) - Drift(xs) <= At(Fold(xs), m) * Total(xs) <= WeightedSum(xs, m)
  {
    if xs != [] {
      var rest, x := xs[..|xs| - 1], xs[|xs| - 1];
      FoldBound(rest, m);
      TotalNotNegative(rest);
      assert NotNegative(x);
      if x.count > 0 {
        WeighBounds(At(Fold(rest), m), Total(rest), At(x, m), x.count);
        assert At(Fold(xs), m) == Weigh(At(Fold(rest), m), Total(rest), At(x, m), x.count);
      }
    }
  }

  lemma WeighWithin(v: int, t: int, a: int, c: int, lo: int, hi: int)
    requires v >= 0 && t >= 0 && c > 0 && 0 <= lo <= a <= hi
    requires t > 0 ==> lo <= v <= hi
    ensures lo <= Weigh(v, t, a, c) <= hi
  {
    if t == 0 {
      assert v * t == 0;
      DivExact(a, c);
      MulMonotone(0, a, c);
    } else {
      WeighMonotone(lo, v, t, lo, a, c);
      WeighMonotone(v, hi, t, a, hi, c);
      WeighSame(lo, t, c);
      WeighSame(hi, t, c);
    }
  }

  ghost predicate Within(xs: seq<Values>, m: Measure, lo: int, hi: int) {
    forall i :: 0 <= i < |xs| && xs[i].count > 0 ==> lo <= At(xs[i], m) <= hi
  }

  /** The folded value stays between the least and the greatest value that counts. */
  lemma {:induction false} FoldWithin(xs: seq<Values>, m: Measure, lo: int, hi: int)
    requires AllNotNegative(xs) && 0 <= lo <= hi && Within(xs, m, lo, hi)
    ensures Total(xs) > 0 ==> lo <= At(Fold(xs), m) <= hi
  {
    if xs != [] {
      var rest, x := xs[..|xs| - 1], xs[|xs| - 1];
      FoldWithin(rest, m, lo, hi);
      FoldBound(rest, m);
      TotalNotNegative(rest);
      assert NotNegative(x);
      if x.count > 0 {
        var v, t, a := At(Fold(rest), m), Total(rest), At(x, m);
        assert At(Fold(xs), m) == Weigh(v, t, a, x.count);
        WeighWithin(v, t, a, x.count, lo, hi);
      }
    }
  }

  ghost predicate Ordered(v: Values) {
    v.perc50 <= v.perc80 <= v.perc95 <= v.perc99 <= v.perc100
  }

  /** Ordered percentiles stay ordered. */
  lemma {:induction false} FoldOrdered(xs: seq<Values>)
    requires AllNotNegative(xs) && forall i :: 0 <= i < |xs| ==> Ordered(xs[i])
    ensures Ordered(Fold(xs))
  {
    if xs != [] {
      var rest, x := xs[..|xs| - 1], xs[|xs| - 1];
      FoldOrdered(rest);
      TotalNotNegative(rest);
      assert NotNegative(x) && Ordered(x);
      if x.count > 0 {
        var v, t, c := Fold(rest), Total(rest), x.count;
        forall m ensures At(v, m) >= 0 && At(x, m) >= 0 { FoldBound(rest, m); }
        assert At(v, Perc50) >= 0 && At(v, Perc80) >= 0 && At(v, Perc95) >= 0 && At(v, Perc99) >= 0;
        assert At(x, Perc50) >= 0 && At(x, Perc80) >= 0 && At(x, Perc95) >= 0 && At(x, Perc99) >= 0;
        WeighMonotone(v.perc50, v.perc80, t, x.perc50, x.perc80, c);
        WeighMonotone(v.perc80, v.perc95, t, x.perc80, x.perc95, c);
        WeighMonotone(v.perc95, v.perc99, t, x.perc95, x.perc99, c);
        WeighMonotone(v.perc99, v.perc100, t, x.perc99, x.perc100, c);
      }
    }
  }
}
