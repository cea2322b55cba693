/**
 * LongAggregator (data/aggregators/LongAggregator.java): folds the long
 * values of a column over a collection of rows into one value, by the
 * attribute handling type NONE, AVG, MIN, MAX, MEDIAN or SUM.
 *
 * A row's cell is an optional long (a null cell is skipped). The Java code
 * accumulates in a double. Every value here is at most 2^53 in magnitude, so
 * it converts to a double exactly; the running SUM/AVG total, however, is
 * rounded to the nearest double after each addition, and the AVG quotient
 * is rounded before it is truncated, as IEEE 754 arithmetic does (round to
 * nearest, ties to even, 53 significant bits). A double that holds an integer
 * is modelled as that integer. The final `(long)` cast truncates toward zero
 * and saturates, as Java's double-to-long conversion does.
 */
module LongAggregation {
  import opened Wrappers

  const LongMin: int := -0x8000_0000_0000_0000
  const LongMax: int := 0x7fff_ffff_ffff_ffff
  /** `(double) Long.MAX_VALUE` rounds up to 2^63. */
  const LongMaxAsDouble: int := 0x8000_0000_0000_0000

  /** A long that a double holds exactly: magnitude at most 2^53. */
  type ExactLong = v: int | -0x20_0000_0000_0000 <= v <= 0x20_0000_0000_0000

  /** The handling types of the host; `Unlisted` stands for every other constant of that enum. */
  datatype HandlingType = NoAggregation | Avg | Min | Max | Median | Sum | Unlisted(name: string)

  /** The outcome of `aggregate`: null, a long, or the exception of an out-of-range array index. */
  datatype Aggregated = Null | Value(v: int) | IndexOutOfBounds(index: int)

  /** The supported types, in the order the class lists them. */
  function GetAttributeHandlingTypes(): (r: seq<HandlingType>)
    ensures |r| == 6 && r[0] == NoAggregation
    ensures forall t :: t in r <==> !t.Unlisted?
  {
    [NoAggregation, Avg, Min, Max, Median, Sum]
  }

  // ---------------------------------------------------------------------
  // Specification

  /** The non-null cells, in row order. */
  function Present(cells: seq<Option<ExactLong>>): (vs: seq<ExactLong>)
    ensures |vs| <= |cells|
  {
    if cells == [] then []
    else
      var init := cells[..|cells| - 1];
      match cells[|cells| - 1]
      case None => Present(init)
      case Some(v) => Present(init) + [v]
  }

  /** One more row adds its value to the present ones when its cell is not null. */
  lemma PresentStep(cells: seq<Option<ExactLong>>, i: nat)
    requires i < |cells|
    ensures cells[i].None? ==> Present(cells[..i + 1]) == Present(cells[..i])
    ensures cells[i].Some? ==> Present(cells[..i + 1]) == Present(cells[..i]) + [cells[i].value]
  {
    assert cells[..i + 1][..i] == cells[..i];
  }

  /** The present values are exactly the values of the non-null cells. */
  lemma {:induction false} PresentMembers(cells: seq<Option<ExactLong>>)
    ensures forall v :: v in Present(cells) <==> Some(v) in cells
  {
    if cells != [] {
      var init := cells[..|cells| - 1];
      PresentMembers(init);
      assert cells == init + [cells[|cells| - 1]];
    }
  }

  /** MAX as the loop computes it: starts at Long.MIN_VALUE and keeps the larger. */
  function MaxOf(vs: seq<ExactLong>): (r: int)
    ensures vs == [] ==> r == LongMin
  {
    if vs == [] then LongMin
    else
      var m := MaxOf(vs[..|vs| - 1]);
      if m < vs[|vs| - 1] then vs[|vs| - 1] else m
  }

  /** Of at least one value, MAX is one of them and no value exceeds it. */
  lemma {:induction false} MaxOfIsGreatest(vs: seq<ExactLong>)
    requires vs != []
    ensures MaxOf(vs) in vs && forall v :: v in vs ==> v <= MaxOf(vs)
  {
    var init := vs[..|vs| - 1];
    assert vs == init + [vs[|vs| - 1]];
    if init != [] {
      MaxOfIsGreatest(init);
    }
  }

  /** MIN as the loop computes it: starts at (double) Long.MAX_VALUE and keeps the smaller. */
  function MinOf(vs: seq<ExactLong>): (r: int)
    ensures vs == [] ==> r == LongMaxAsDouble
  {
    if vs == [] then LongMaxAsDouble
    else
      var m := MinOf(vs[..|vs| - 1]);
      if m > vs[|vs| - 1] then vs[|vs| - 1] else m
  }

  /** Of at least one value, MIN is one of them and no value is below it. */
  lemma {:induction false} MinOfIsLeast(vs: seq<ExactLong>)
    requires vs != []
    ensures MinOf(vs) in vs && forall v :: v in vs ==> MinOf(vs) <= v
  {
    var init := vs[..|vs| - 1];
    assert vs == init + [vs[|vs| - 1]];
    if init != [] {
      MinOfIsLeast(init);
    }
  }

  /** The exact sum of the values. */
  function SumOf(vs: seq<int>): int
  {
    if vs == [] then 0 else SumOf(vs[..|vs| - 1]) + vs[|vs| - 1]
  }

  // ---------------------------------------------------------------------
  // Double arithmetic on integer values

  const TwoTo52: int := 0x10_0000_0000_0000
  const TwoTo53: int := 0x20_0000_0000_0000

  function Pow2(k: nat): (r: nat)
    ensures r >= 1
  {
    if k == 0 then 1 else 2 * Pow2(k - 1)
  }

  /** n / d rounded to an integer: the quotient, or one more when the remainder is over half of d, or half of it with an odd quotient. */
  function RoundHalfEven(n: nat, d: nat): (m: nat)
    requires d > 0
    ensures m == n / d || (m == n / d + 1 && n % d != 0)
  {
    var q, r := n / d, n % d;
    if 2 * r < d || (2 * r == d && q % 2 == 0) then q else q + 1
  }

  /**
   * RoundHalfEven is round to nearest, ties to even: multiplied back by d,
   * the result is within half of d of n, and exactly half only when even.
   */
  lemma RoundHalfEvenNearest(n: nat, d: nat)
    requires d > 0
    ensures var m: int := RoundHalfEven(n, d); var dist := 2 * (m * d - n);
      0 - d <= dist <= d && (dist == d || dist == 0 - d ==> m % 2 == 0)
  {
    var q, r := n / d, n % d;
    assert n == q * d + r;
    MulSucc(q, d);
  }

  /**
   * For a >= 2^53 * d: the e with 2^52 <= a / (d * 2^e) < 2^53, so that the
   * doubles around a / d are 2^e apart.
   */
  function UpExp(a: nat, d: nat): nat
    requires d > 0
    decreases if a < TwoTo53 * d then 0 else a - TwoTo53 * d + 1
  {
    if a < TwoTo53 * d then 0 else 1 + UpExp(a, 2 * d)
  }

  /**
   * For 0 < a < 2^53 * d: the f with 2^52 <= a * 2^f / d < 2^53 (none for
   * a quotient already at least 2^52), so that the doubles around a / d are
   * 2^-f apart.
   */
  function DownExp(a: nat, d: nat): nat
    requires d > 0
    decreases if a == 0 || a >= TwoTo52 * d then 0 else TwoTo52 * d - a
  {
    if a == 0 || a >= TwoTo52 * d then 0 else 1 + DownExp(2 * a, d)
  }

  /** For a >= 0: the double nearest to a / d, truncated toward zero. */
  function RoundedQuotientMag(a: nat, d: nat): nat
    requires d > 0
  {
    if a >= TwoTo53 * d then
      var u := Pow2(UpExp(a, d));
      RoundHalfEven(a, d * u) * u
    else
      var s := Pow2(DownExp(a, d));
      RoundHalfEven(a * s, d) / s
  }

  /**
   * `a / (double) d` for a double a holding an integer and d > 0, then
   * truncated toward zero: the integer part of the double nearest to the
   * exact quotient. Rounding to nearest and truncation are both symmetric
   * about zero.
   */
  function RoundedQuotient(a: int, d: nat): int
    requires d > 0
  {
    if a >= 0 then RoundedQuotientMag(a, d) else -(RoundedQuotientMag(-a, d) as int)
  }

  /**
   * The double nearest to the integer x: what `+` on two doubles holding
   * integers leaves when their exact sum is x. That double is itself an
   * integer, so the truncation inside `RoundedQuotient` removes nothing.
   */
  function RoundToDouble(x: int): int
  {
    RoundedQuotient(x, 1)
  }

  /** SUM as the loop computes it: from 0.0, each addition rounds to the nearest double. */
  function DoubleSum(vs: seq<ExactLong>): int
  {
    if vs == [] then 0 else RoundToDouble(DoubleSum(vs[..|vs| - 1]) + vs[|vs| - 1])
  }

  lemma DivAtLeast(x: int, d: nat, k: int)
    requires d > 0 && d * k <= x
    ensures k <= x / d
  {
    var q := x / d;
    assert d * (q + 1) == d * q + d;
    if q < k {
      MulMono(d, q + 1, k);
    }
  }

  lemma DivAtMost(x: int, d: nat, k: int)
    requires d > 0 && x <= d * k
    ensures x / d <= k
    ensures x / d == k ==> x % d == 0
  {
    var q := x / d;
    assert d * (k + 1) == d * k + d;
    if q > k {
      MulMono(d, k + 1, q);
    }
  }

  /** The binade of a / d for a >= 2^53 * d: with u = 2^UpExp(a, d), 2^52 <= a / (d * u) < 2^53. */
  lemma {:induction false} UpExpBinade(a: nat, d: nat)
    requires d > 0 && a >= TwoTo53 * d
    ensures TwoTo52 * (d * Pow2(UpExp(a, d))) <= a < TwoTo53 * (d * Pow2(UpExp(a, d)))
    decreases a - TwoTo53 * d
  {
    var e := UpExp(a, 2 * d);
    assert UpExp(a, d) == 1 + e;
    assert d * Pow2(1 + e) == (2 * d) * Pow2(e);
    if a >= TwoTo53 * (2 * d) {
      UpExpBinade(a, 2 * d);
    }
  }

  /**
   * A quotient of at least 2^53 that is at most 2^53 is 2^53 itself, which
   * the doubles spaced 2 apart hold exactly.
   */
  lemma RoundedQuotientAtTop(a: nat, d: nat, lo: int, hi: int)
    requires d > 0 && hi <= TwoTo53 && d * lo <= a <= d * hi && a >= TwoTo53 * d
    ensures lo <= RoundedQuotientMag(a, d) <= hi
  {
    MulMono(d, hi, TwoTo53);
    assert a == TwoTo53 * d;
    DivAtMost(a, d, TwoTo53);
    DivAtLeast(a, d, hi);
    DivAtLeast(a, d, lo);
    assert UpExp(a, 2 * d) == 0;
    assert a == TwoTo52 * (d * 2);
    DivAtLeast(a, d * 2, TwoTo52);
    DivAtMost(a, d * 2, TwoTo52);
  }

  /** Rounding n / d stays between two integers that bound the quotient. */
  lemma RoundHalfEvenBetween(n: nat, d: nat, lo: int, hi: int)
    requires d > 0 && d * lo <= n <= d * hi
    ensures lo <= RoundHalfEven(n, d) <= hi
  {
    DivAtLeast(n, d, lo);
    DivAtMost(n, d, hi);
  }

  /** Scaling a quotient's bounds by s > 0 keeps them bounds. */
  lemma ScaleBetween(a: nat, d: nat, lo: int, hi: int, s: nat)
    requires d > 0 && s > 0 && d * lo <= a <= d * hi
    ensures d * (lo * s) <= a * s <= d * (hi * s)
  {
    MulMono(s, d * lo, a);
    MulMono(s, a, d * hi);
    assert s * (d * lo) == d * (lo * s) && s * (d * hi) == d * (hi * s);
  }

  /**
   * Below 2^53 the quotient is scaled by 2^f to 53 significant bits and
   * rounded to an integer m; the bounds, scaled alike, are integers, so m
   * stays between them, and so does m / 2^f.
   */
  lemma RoundedQuotientBelowTop(a: nat, d: nat, lo: int, hi: int)
    requires d > 0 && d * lo <= a <= d * hi && a < TwoTo53 * d
    ensures lo <= RoundedQuotientMag(a, d) <= hi
  {
    var s := Pow2(DownExp(a, d));
    ScaleBetween(a, d, lo, hi, s);
    RoundHalfEvenBetween(a * s, d, lo * s, hi * s);
    var m := RoundHalfEven(a * s, d);
    DivAtLeast(m, s, lo);
    DivAtMost(m, s, hi);
  }

  /** A quotient between two integers of magnitude at most 2^53 rounds and truncates to a value between them. */
  lemma RoundedQuotientMagBetween(a: nat, d: nat, lo: int, hi: int)
    requires d > 0 && hi <= TwoTo53 && d * lo <= a <= d * hi
    ensures lo <= RoundedQuotientMag(a, d) <= hi
  {
    if a >= TwoTo53 * d {
      RoundedQuotientAtTop(a, d, lo, hi);
    } else {
      RoundedQuotientBelowTop(a, d, lo, hi);
    }
  }

  /** The bounds of `RoundedQuotientMag`, for either sign of the dividend. */
  lemma RoundedQuotientBetween(a: int, d: nat, lo: int, hi: int)
    requires d > 0 && -TwoTo53 <= lo && hi <= TwoTo53 && d * lo <= a <= d * hi
    ensures lo <= RoundedQuotient(a, d) <= hi
  {
    if a >= 0 {
      RoundedQuotientMagBetween(a, d, lo, hi);
    } else {
      assert d * (-hi) == -(d * hi) && d * (-lo) == -(d * lo);
      RoundedQuotientMagBetween(-a, d, -hi, -lo);
    }
  }

  /** Up to 2^53 in magnitude every integer is a double, so rounding leaves it alone. */
  lemma RoundToDoubleExact(x: int)
    requires -TwoTo53 <= x <= TwoTo53
    ensures RoundToDouble(x) == x
  {
    RoundedQuotientBetween(x, 1, x, x);
  }

  /**
   * Past 2^53 the result lies on the grid of doubles of x's binade: a
   * multiple of their spacing u, within half of u of x, and on a tie the
   * even multiple.
   */
  lemma RoundToDoubleNearest(x: nat)
    requires x >= TwoTo53
    ensures var u := Pow2(UpExp(x, 1)); var r := RoundToDouble(x);
      TwoTo52 * u <= x < TwoTo53 * u && r % u == 0 &&
      0 - u <= 2 * (r - x) <= u &&
      (2 * (r - x) == u || 2 * (r - x) == 0 - u ==> (r / u) % 2 == 0)
  {
    var u := Pow2(UpExp(x, 1));
    UpExpBinade(x, 1);
    assert 1 * u == u;
    var m := RoundHalfEven(x, u);
    RoundHalfEvenNearest(x, u);
    assert RoundToDouble(x) == m * u;
    DivAtLeast(m * u, u, m);
    DivAtMost(m * u, u, m);
  }

  /** An integer between k copies and k + 1 copies of d, short of the latter, has quotient k. */
  lemma DivExact(x: int, d: nat, k: int)
    requires d > 0 && d * k <= x < d * (k + 1)
    ensures x / d == k
  {
    DivAtLeast(x, d, k);
    DivAtMost(x, d, k + 1);
  }

  /** For a > 0, scaling by 2^DownExp(a, d) lifts a / d to at least 2^52. */
  lemma {:induction false} DownExpBinade(a: nat, d: nat)
    requires d > 0 && a > 0
    ensures a * Pow2(DownExp(a, d)) >= TwoTo52 * d
    decreases if a >= TwoTo52 * d then 0 else TwoTo52 * d - a
  {
    if a < TwoTo52 * d {
      var g := DownExp(2 * a, d);
      assert DownExp(a, d) == 1 + g;
      assert a * Pow2(1 + g) == (2 * a) * Pow2(g);
      DownExpBinade(2 * a, d);
    }
  }

  /**
   * A dividend of at most 2^53 lifted to 2^52 * d or more needs a scale s of
   * at least d / 2, and exactly d / 2 only for the dividend 2^53.
   */
  lemma ScaleAtLeastHalf(a: nat, d: nat, s: nat)
    requires d > 0 && s > 0 && 0 < a <= TwoTo53 && a * s >= TwoTo52 * d
    ensures d <= 2 * s
    ensures d == 2 * s ==> a == TwoTo53
  {
    var half: nat := TwoTo52;
    MulMono(s, a, TwoTo53);
    assert TwoTo53 * s == half * (2 * s);
    if 2 * s < d {
      MulMono(half, 2 * s + 1, d);
    }
    if a < TwoTo53 {
      MulMono(s, a + 1, TwoTo53);
      if d >= 2 * s {
        MulMono(half, 2 * s, d);
      }
    }
  }

  /**
   * Rounding the scaled quotient a * s / d never reaches the next multiple
   * of s: the fraction r / d of a / d is at most 1 - 1 / d, and the rounding
   * moves by at most d / 2s <= 1 of those steps, reaching a whole step only
   * on a quotient that is exact.
   */
  lemma RoundedBelowNextMultiple(a: nat, d: nat, s: nat)
    requires d > 0 && s > 0 && 0 < a <= TwoTo53 && a * s >= TwoTo52 * d
    ensures RoundHalfEven(a * s, d) < (a / d + 1) * s
  {
    var q, r := a / d, a % d;
    var m := RoundHalfEven(a * s, d);
    var two: nat := 2;
    assert a * s == d * (q * s) + r * s;
    RoundHalfEvenNearest(a * s, d);
    ScaleAtLeastHalf(a, d, s);
    if m >= (q + 1) * s {
      MulMono(d, (q + 1) * s, m);
      assert d * ((q + 1) * s) - a * s == s * (d - r);
      MulMono(s, 1, d - r);
      assert d == 2 * s && a == TwoTo53;
      assert a * s == d * TwoTo52;
      DivExact(a * s, d, TwoTo52);
      MulMono(two, (q + 1) * s, TwoTo52);
    }
  }

  /** Below the top binade, a quotient of a dividend of at most 2^53 rounds and truncates to itself truncated. */
  lemma RoundedQuotientBelowTopExact(a: nat, d: nat)
    requires d > 0 && 0 < a <= TwoTo53 && a < TwoTo53 * d
    ensures RoundedQuotientMag(a, d) == a / d
  {
    var q := a / d;
    var s := Pow2(DownExp(a, d));
    var m := RoundHalfEven(a * s, d);
    assert a * s == d * (q * s) + (a % d) * s;
    DivAtLeast(a * s, d, q * s);
    DownExpBinade(a, d);
    RoundedBelowNextMultiple(a, d, s);
    DivExact(m, s, q);
  }

  /**
   * Up to 2^53 in magnitude, the double quotient truncated is the exact
   * quotient truncated: rounding never crosses an integer.
   */
  lemma RoundedQuotientExact(a: int, d: nat)
    requires d > 0 && -TwoTo53 <= a <= TwoTo53
    ensures RoundedQuotient(a, d) == TruncDiv(a, d)
  {
    var mag: nat := if a >= 0 then a else -a;
    if mag == 0 {
      assert DownExp(0, d) == 0;
    } else if mag >= TwoTo53 * d {
      assert d == 1 && mag == TwoTo53;
      RoundedQuotientAtTop(mag, d, mag, mag);
    } else {
      RoundedQuotientBelowTopExact(mag, d);
    }
  }

  /** Folding one more value: the running sums, maximum and minimum as the loop updates them. */
  lemma FoldStep(vs: seq<ExactLong>, v: ExactLong)
    ensures SumOf(vs + [v]) == SumOf(vs) + v
    ensures DoubleSum(vs + [v]) == RoundToDouble(DoubleSum(vs) + v)
    ensures MaxOf(vs + [v]) == if MaxOf(vs) < v then v else MaxOf(vs)
    ensures MinOf(vs + [v]) == if MinOf(vs) > v then v else MinOf(vs)
  {
    assert (vs + [v])[..|vs|] == vs;
  }

  /** Division truncating toward zero, as Java's long division does. */
  function TruncDiv(a: int, b: int): int
    requires b > 0
  {
    if a >= 0 then a / b else -((-a) / b)
  }

  /** The quotient rounds toward zero: the remainder has the dividend's sign and is smaller than the divisor. */
  lemma TruncDivRemainder(a: int, b: int)
    requires b > 0
    ensures a >= 0 ==> 0 <= a - TruncDiv(a, b) * b < b
    ensures a < 0 ==> -b < a - TruncDiv(a, b) * b <= 0
  {
  }

  /** Java's `(long)` cast of a double holding an integer: saturates at the long range. */
  function ToLong(x: int): (r: int)
    ensures LongMin <= r <= LongMax
    ensures LongMin <= x <= LongMax ==> r == x
    ensures x > LongMax ==> r == LongMax
    ensures x < LongMin ==> r == LongMin
  {
    if x > LongMax then LongMax else if x < LongMin then LongMin else x
  }

  predicate Sorted(s: seq<int>)
  {
    forall i, j :: 0 <= i < j < |s| ==> s[i] <= s[j]
  }

  function Insert(x: int, s: seq<int>): (r: seq<int>)
    requires Sorted(s)
    ensures Sorted(r) && multiset(r) == multiset(s) + multiset{x}
    ensures |r| == |s| + 1 && r[0] == (if s == [] || x <= s[0] then x else s[0])
  {
    if s == [] || x <= s[0] then [x] + s
    else
      assert s == [s[0]] + s[1..];
      var rest := Insert(x, s[1..]);
      assert forall k :: 0 <= k < |rest| ==> s[0] <= rest[0] <= rest[k];
      [s[0]] + rest
  }

  /** The values in ascending order: the order `Arrays.sort` leaves them in. */
  function SortSeq(s: seq<int>): (r: seq<int>)
    ensures Sorted(r) && multiset(r) == multiset(s)
  {
    if s == [] then []
    else
      assert s == [s[0]] + s[1..];
      Insert(s[0], SortSeq(s[1..]))
  }

  /**
   * MEDIAN of ascending values: the middle one for an odd count, the halved
   * sum of the two middle ones (long division) for an even count; an empty
   * array is indexed at -1.
   */
  function MedianOfSorted(s: seq<int>): (r: Aggregated)
    ensures r.IndexOutOfBounds? <==> s == []
    ensures r.IndexOutOfBounds? ==> r.index == -1
    ensures r.Value? ==> LongMin <= r.v <= LongMax
  {
    var n := |s|;
    if n % 2 == 1 then Value(ToLong(s[(n - 1) / 2]))
    else if n == 0 then IndexOutOfBounds(-1)
    else Value(ToLong(TruncDiv(s[n / 2 - 1] + s[n / 2], 2)))
  }

  /** What `aggregate` returns for handling type `t` over the cells of the rows. */
  function AggregateSpec(t: HandlingType, cells: seq<Option<ExactLong>>): (r: Aggregated)
    ensures r.Null? <==> t == NoAggregation
    ensures r.IndexOutOfBounds? <==> t == Median && Present(cells) == []
    ensures r.Value? ==> LongMin <= r.v <= LongMax
  {
    var vs := Present(cells);
    match t
    case NoAggregation => Null
    case Max => Value(ToLong(MaxOf(vs)))
    case Min => Value(ToLong(MinOf(vs)))
    case Sum => Value(ToLong(DoubleSum(vs)))
    // 0.0 / 0 is NaN, and (long) NaN is 0
    case Avg => Value(ToLong(if |vs| == 0 then 0 else RoundedQuotient(DoubleSum(vs), |vs|)))
    case Median => MedianOfSorted(SortSeq(vs))
    case Unlisted(_) => Value(0)
  }

  // ---------------------------------------------------------------------
  // The aggregation, as the class runs it

  /** `Arrays.sort` on the boxed values: ascending, a permutation of the input. */
  method SortInPlace(a: array<int>)
    modifies a
    ensures Sorted(a[..])
    ensures multiset(a[..]) == multiset(old(a[..]))
  {
    var i := 0;
    while i < a.Length
      invariant 0 <= i <= a.Length
      invariant forall p, q :: 0 <= p < q < i ==> a[p] <= a[q]
      invariant multiset(a[..]) == multiset(old(a[..]))
    {
      var j := i;
      while j > 0 && a[j - 1] > a[j]
        invariant 0 <= j <= i
        invariant forall p, q :: 0 <= p < q <= i && q != j ==> a[p] <= a[q]
        invariant multiset(a[..]) == multiset(old(a[..]))
      {
        a[j - 1], a[j] := a[j], a[j - 1];
        j := j - 1;
      }
      i := i + 1;
    }
  }

  /** The values copied into a new array, which `Arrays.sort` then puts in ascending order. */
  method SortedArray(valueList: seq<int>) returns (vArray: array<int>)
    ensures fresh(vArray)
    ensures vArray[..] == SortSeq(valueList)
  {
    vArray := new int[|valueList|](k requires 0 <= k < |valueList| => valueList[k]);
    assert vArray[..] == valueList;
    SortInPlace(vArray);
    SortedUnique(vArray[..], SortSeq(valueList));
  }

  /** The middle of the sorted array: its middle element, or the halved sum of its two middle elements. */
  method PickMedian(vArray: array<int>) returns (r: Aggregated)
    ensures r == MedianOfSorted(vArray[..])
  {
    var n := vArray.Length;
    if n % 2 == 1 {
      r := Value(ToLong(vArray[(n - 1) / 2]));
    } else if n == 0 {
      r := IndexOutOfBounds(-1);
    } else {
      r := Value(ToLong(TruncDiv(vArray[n / 2 - 1] + vArray[n / 2], 2)));
    }
  }

  /** The MEDIAN post-processing: copy the values to an array, sort it, pick the middle. */
  method MedianOfList(valueList: seq<int>) returns (r: Aggregated)
    ensures r == MedianOfSorted(SortSeq(valueList))
  {
    var vArray := SortedArray(valueList);
    r := PickMedian(vArray);
  }

  /** The value `aggregation` holds after folding `vs`, from the start value the initialisation sets. */
  function Running(t: HandlingType, vs: seq<ExactLong>): (r: int)
    ensures vs == [] ==> r == (if t == Max then LongMin else if t == Min then LongMaxAsDouble else 0)
  {
    match t
    case Max => MaxOf(vs)
    case Min => MinOf(vs)
    case Sum => DoubleSum(vs)
    case Avg => DoubleSum(vs)
    case _ => 0
  }

  /** The switch of the row loop for one non-null value (MEDIAN's list aside). */
  method FoldValue(t: HandlingType, aggregation: int, value: ExactLong, ghost vs: seq<ExactLong>) returns (a: int)
    requires aggregation == Running(t, vs)
    ensures a == Running(t, vs + [value])
  {
    FoldStep(vs, value);
    a := aggregation;
    match t {
      case Max => if a < value { a := value; }
      case Min => if a > value { a := value; }
      case Sum => a := RoundToDouble(a + value);
      case Avg => a := RoundToDouble(a + value);
      case _ =>
    }
  }

  /**
   * The row loop of `aggregate`: skips null cells, counts the others and
   * folds them by the handling type, from the value the initialisation set.
   */
  method Accumulate(t: HandlingType, cells: seq<Option<ExactLong>>) returns (aggregation: int, count: nat, valueList: seq<int>)
    ensures count == |Present(cells)|
    ensures aggregation == Running(t, Present(cells))
    ensures t == Median ==> valueList == Present(cells)
  {
    aggregation, count, valueList := 0, 0, [];
    if t == Max {
      aggregation := LongMin;
    } else if t == Min {
      aggregation := LongMaxAsDouble;
    }
    var i := 0;
    while i < |cells|
      invariant 0 <= i <= |cells|
      invariant count == |Present(cells[..i])|
      invariant aggregation == Running(t, Present(cells[..i]))
      invariant t == Median ==> valueList == Present(cells[..i])
    {
      PresentStep(cells, i);
      match cells[i] {
        case None =>
        case Some(value) =>
          count := count + 1;
          aggregation := FoldValue(t, aggregation, value, Present(cells[..i]));
          if t == Median {
            valueList := valueList + [value];
          }
      }
      i := i + 1;
    }
    assert cells[..|cells|] == cells;
  }

  method Aggregate(t: HandlingType, cells: seq<Option<ExactLong>>) returns (r: Aggregated)
    ensures r == AggregateSpec(t, cells)
    ensures t == NoAggregation ==> r == Null
  {
    if t == NoAggregation {
      return Null;
    }
    var aggregation, count, valueList := Accumulate(t, cells);
    if t == Median {
      r := MedianOfList(valueList);
    } else {
      if t == Avg {
        aggregation := if count == 0 then 0 else RoundedQuotient(aggregation, count);
      } else if t.Unlisted? {
        aggregation := 0;
      }
      r := Value(ToLong(aggregation));
    }
  }

  // ---------------------------------------------------------------------
  // Properties

  /** The first of an ascending order is its least value. */
  lemma HeadIsLeast(a: seq<int>, x: int)
    requires Sorted(a) && x in multiset(a)
    ensures a[0] <= x
  {
    var i :| 0 <= i < |a| && a[i] == x;
    assert i == 0 || a[0] <= a[i];
  }

  lemma SortedTail(a: seq<int>)
    requires Sorted(a) && a != []
    ensures Sorted(a[1..])
    ensures multiset(a[1..]) == multiset(a) - multiset{a[0]}
    ensures a == [a[0]] + a[1..]
  {
    assert a == [a[0]] + a[1..];
  }

  /** Two ascending orders of the same values are the same sequence. */
  lemma {:induction false} SortedUnique(a: seq<int>, b: seq<int>)
    requires Sorted(a) && Sorted(b) && multiset(a) == multiset(b)
    ensures a == b
  {
    if a == [] || b == [] {
      assert |a| == |multiset(a)| == |multiset(b)| == |b|;
    } else {
      assert b[0] in multiset(b);
      HeadIsLeast(a, b[0]);
      assert a[0] in multiset(a);
      HeadIsLeast(b, a[0]);
      var h := a[0];
      assert b[0] == h;
      var ta, tb := a[1..], b[1..];
      SortedTail(a);
      SortedTail(b);
      assert multiset(ta) == multiset(tb);
      SortedUnique(ta, tb);
      assert a == [h] + ta;
      assert b == [h] + tb;
    }
  }

  lemma {:induction false} PresentAppend(a: seq<Option<ExactLong>>, b: seq<Option<ExactLong>>)
    ensures Present(a + b) == Present(a) + Present(b)
  {
    if b == [] {
      assert a + b == a;
    } else {
      var b' := b[..|b| - 1];
      assert (a + b)[..|a + b| - 1] == a + b';
      PresentAppend(a, b');
    }
  }

  /** A null cell anywhere changes neither the count nor the result. */
  lemma NullCellIgnored(t: HandlingType, a: seq<Option<ExactLong>>, b: seq<Option<ExactLong>>)
    ensures AggregateSpec(t, a + [None] + b) == AggregateSpec(t, a + b)
  {
    PresentAppend(a + [None], b);
    PresentAppend(a, [None]);
    var none: seq<Option<ExactLong>> := [None];
    assert none[..0] == [];
    PresentAppend(a, b);
  }

  lemma {:induction false} SumBounds(vs: seq<ExactLong>)
    requires vs != []
    ensures |vs| * MinOf(vs) <= SumOf(vs) <= |vs| * MaxOf(vs)
  {
    var init := vs[..|vs| - 1];
    var last := vs[|vs| - 1];
    var n := |init|;
    assert SumOf(vs) == SumOf(init) + last;
    var lo, hi := MinOf(vs), MaxOf(vs);
    assert vs == init + [last];
    assert lo <= last <= hi;
    if init == [] {
      assert SumOf(init) == 0;
    } else {
      SumBounds(init);
      MulMono(n, lo, MinOf(init));
      MulMono(n, MaxOf(init), hi);
    }
    MulSucc(n, lo);
    MulSucc(n, hi);
  }

  lemma MulMono(n: nat, x: int, y: int)
    requires x <= y
    ensures n * x <= n * y
  {
  }

  lemma MulSucc(n: nat, x: int)
    ensures (n + 1) * x == n * x + x
  {
  }

  /** Truncating division of a sum of n values lies between n copies of two bounds. */
  lemma TruncDivBetween(s: int, n: int, lo: int, hi: int)
    requires n > 0 && n * lo <= s <= n * hi
    ensures lo <= TruncDiv(s, n) <= hi
  {
    var q := TruncDiv(s, n);
    TruncDivRemainder(s, n);
    if q < lo {
      MulMono(n, q + 1, lo);
      assert false;
    }
    if q > hi {
      MulMono(n, hi, q - 1);
      assert false;
    }
  }

  /** Every running total of the values, from the first to the whole sum, is at most 2^53 in magnitude. */
  predicate SumsExact(vs: seq<ExactLong>)
  {
    forall k :: 0 <= k <= |vs| ==> -TwoTo53 <= SumOf(vs[..k]) <= TwoTo53
  }

  /** While every running total is at most 2^53 in magnitude, the double sum is the exact sum. */
  lemma {:induction false} DoubleSumExact(vs: seq<ExactLong>)
    requires SumsExact(vs)
    ensures DoubleSum(vs) == SumOf(vs)
  {
    if vs != [] {
      var init := vs[..|vs| - 1];
      assert forall k :: 0 <= k <= |init| ==> init[..k] == vs[..k];
      DoubleSumExact(init);
      assert vs[..|vs|] == vs;
      RoundToDoubleExact(SumOf(vs));
    }
  }

  /** SUM is the exact sum while every running total is at most 2^53 in magnitude. */
  lemma SumExactInRange(cells: seq<Option<ExactLong>>)
    requires SumsExact(Present(cells))
    ensures AggregateSpec(Sum, cells) == Value(SumOf(Present(cells)))
  {
    var vs := Present(cells);
    DoubleSumExact(vs);
    assert vs[..|vs|] == vs;
  }

  /**
   * AVG of at least one value lies between MIN and MAX while every running
   * total is at most 2^53 in magnitude; `AvgCanFallBelowMin` shows the bound
   * fails past that.
   */
  lemma AvgBetweenMinAndMax(cells: seq<Option<ExactLong>>)
    requires Present(cells) != [] && SumsExact(Present(cells))
    ensures AggregateSpec(Min, cells).v <= AggregateSpec(Avg, cells).v <= AggregateSpec(Max, cells).v
  {
    var vs := Present(cells);
    DoubleSumExact(vs);
    SumBounds(vs);
    MinOfIsLeast(vs);
    MaxOfIsGreatest(vs);
    RoundedQuotientBetween(SumOf(vs), |vs|, MinOf(vs), MaxOf(vs));
  }

  /**
   * AVG is the exact sum divided by the count, truncated toward zero, while
   * every running total is at most 2^53 in magnitude.
   */
  lemma AvgExactInRange(cells: seq<Option<ExactLong>>)
    requires Present(cells) != [] && SumsExact(Present(cells))
    ensures AggregateSpec(Avg, cells) == Value(TruncDiv(SumOf(Present(cells)), |Present(cells)|))
  {
    var vs := Present(cells);
    DoubleSumExact(vs);
    assert vs[..|vs|] == vs;
    RoundedQuotientExact(SumOf(vs), |vs|);
    RoundedQuotientBetween(SumOf(vs), |vs|, -TwoTo53, TwoTo53) by {
      MulMono(|vs|, 1, TwoTo53);
      MulMono(|vs|, -TwoTo53, -1);
    }
  }

  /** Past 2^53 the double sum rounds: 2^53 + 1 is a tie and goes to the even 2^53. */
  lemma SumRoundsPast2To53()
    ensures AggregateSpec(Sum, [Some(TwoTo53), Some(1)]) == Value(TwoTo53)
  {
    var cells: seq<Option<ExactLong>> := [Some(TwoTo53), Some(1)];
    var vs: seq<ExactLong> := [TwoTo53, 1];
    assert cells[..1] == [Some(TwoTo53)];
    assert Present(cells) == vs;
    assert DoubleSum(vs[..1]) == TwoTo53 by {
      assert vs[..1] == [TwoTo53];
      RoundToDoubleExact(TwoTo53);
    }
    assert UpExp(TwoTo53 + 1, 2) == 0;
    assert UpExp(TwoTo53 + 1, 1) == 1;
    assert RoundToDouble(TwoTo53 + 1) == TwoTo53;
  }

  /** Rounding an integer past 2^53 takes it to the nearest multiple of the spacing u of its binade. */
  lemma RoundToDoubleBySpacing(x: nat, u: nat)
    requires x >= TwoTo53 && u == Pow2(UpExp(x, 1))
    ensures RoundToDouble(x) == RoundHalfEven(x, u) * u
  {
    assert 1 * u == u;
  }

  lemma FirstRoundingsOfCopies()
    ensures RoundToDouble(0x3f_ffff_ffff_fffe) == 0x3f_ffff_ffff_fffe
    ensures RoundToDouble(0x5f_ffff_ffff_fffd) == 0x5f_ffff_ffff_fffc
  {
    assert UpExp(0x3f_ffff_ffff_fffe, 2) == 0;
    RoundToDoubleBySpacing(0x3f_ffff_ffff_fffe, 2);
    assert UpExp(0x5f_ffff_ffff_fffd, 4) == 0;
    assert UpExp(0x5f_ffff_ffff_fffd, 2) == 1;
    RoundToDoubleBySpacing(0x5f_ffff_ffff_fffd, 4);
  }

  /** The rounding steps of adding up copies of 2^53 - 1: the third sum lands on a spacing of 4, the fourth rounds up, the fifth on a spacing of 8. */
  lemma RoundingsOfCopies()
    ensures RoundToDouble(0x3f_ffff_ffff_fffe) == 0x3f_ffff_ffff_fffe
    ensures RoundToDouble(0x5f_ffff_ffff_fffd) == 0x5f_ffff_ffff_fffc
    ensures RoundToDouble(0x7f_ffff_ffff_fffb) == 0x7f_ffff_ffff_fffc
    ensures RoundToDouble(0x9f_ffff_ffff_fffb) == 0x9f_ffff_ffff_fff8
  {
    FirstRoundingsOfCopies();
    assert UpExp(0x7f_ffff_ffff_fffb, 4) == 0;
    assert UpExp(0x7f_ffff_ffff_fffb, 2) == 1;
    RoundToDoubleBySpacing(0x7f_ffff_ffff_fffb, 4);
    assert UpExp(0x9f_ffff_ffff_fffb, 8) == 0;
    assert UpExp(0x9f_ffff_ffff_fffb, 4) == 1;
    assert UpExp(0x9f_ffff_ffff_fffb, 2) == 2;
    RoundToDoubleBySpacing(0x9f_ffff_ffff_fffb, 8);
  }

  /** Summing five copies of 2^53 - 1 in a double gives 5 * 2^53 - 8, where the exact sum is 5 * 2^53 - 5. */
  lemma DoubleSumOfFiveCopies(v: ExactLong)
    requires v == 0x1f_ffff_ffff_ffff
    ensures DoubleSum([v, v, v, v, v]) == 0x9f_ffff_ffff_fff8
  {
    RoundingsOfCopies();
    var s1: seq<ExactLong> := [v];
    assert DoubleSum(s1) == v by {
      assert s1[..0] == [];
      RoundToDoubleExact(v);
    }
    var s2 := s1 + [v];
    FoldStep(s1, v);
    var s3 := s2 + [v];
    FoldStep(s2, v);
    var s4 := s3 + [v];
    FoldStep(s3, v);
    FoldStep(s4, v);
    assert s4 + [v] == [v, v, v, v, v];
  }

  lemma PresentOfFiveCopies(v: ExactLong)
    ensures Present([Some(v), Some(v), Some(v), Some(v), Some(v)]) == [v, v, v, v, v]
  {
    var cells := [Some(v), Some(v), Some(v), Some(v), Some(v)];
    var vs := [v, v, v, v, v];
    for i := 0 to 5
      invariant Present(cells[..i]) == vs[..i]
    {
      PresentStep(cells, i);
      assert vs[..i + 1] == vs[..i] + [v];
    }
    assert cells[..5] == cells && vs[..5] == vs;
  }

  /**
   * Five values of 2^53 - 1: the double sum loses 3, and the quotient then
   * rounds to 2^53 - 2, below MIN.
   */
  lemma AvgCanFallBelowMin()
    ensures var v: ExactLong := TwoTo53 - 1; var cells := [Some(v), Some(v), Some(v), Some(v), Some(v)];
      AggregateSpec(Min, cells) == Value(TwoTo53 - 1) && AggregateSpec(Avg, cells) == Value(TwoTo53 - 2)
  {
    var v: ExactLong := TwoTo53 - 1;
    var vs := [v, v, v, v, v];
    PresentOfFiveCopies(v);
    DoubleSumOfFiveCopies(v);
    assert DownExp(0x9f_ffff_ffff_fff8, 5) == 0;
    MinOfIsLeast(vs);
  }

  /** Every value in ascending order is one of the values, between MIN and MAX. */
  lemma SortedWithinBounds(vs: seq<ExactLong>, k: int)
    requires 0 <= k < |SortSeq(vs)|
    ensures SortSeq(vs)[k] in vs && MinOf(vs) <= SortSeq(vs)[k] <= MaxOf(vs)
  {
    var s := SortSeq(vs);
    assert s[k] in multiset(s);
    assert s[k] in multiset(vs);
    MinOfIsLeast(vs);
    MaxOfIsGreatest(vs);
  }

  lemma MedianOfSortedWithin(s: seq<int>, lo: int, hi: int)
    requires s != [] && LongMin <= lo && hi <= LongMax
    requires forall k :: 0 <= k < |s| ==> lo <= s[k] <= hi
    ensures MedianOfSorted(s).Value? && lo <= MedianOfSorted(s).v <= hi
    ensures |s| % 2 == 1 ==> MedianOfSorted(s).v in s
  {
    var n := |s|;
    if n % 2 == 0 {
      var k := n / 2;
      assert 1 <= k < n;
      TruncDivBetween(s[k - 1] + s[k], 2, lo, hi);
    }
  }

  lemma MedianWithin(vs: seq<ExactLong>)
    requires vs != []
    ensures MedianOfSorted(SortSeq(vs)).Value?
    ensures MinOf(vs) <= MedianOfSorted(SortSeq(vs)).v <= MaxOf(vs)
    ensures |vs| % 2 == 1 ==> MedianOfSorted(SortSeq(vs)).v in vs
  {
    var s := SortSeq(vs);
    assert |s| == |multiset(s)| == |multiset(vs)| == |vs|;
    MinOfIsLeast(vs);
    MaxOfIsGreatest(vs);
    forall k | 0 <= k < |s| ensures MinOf(vs) <= s[k] <= MaxOf(vs) {
      SortedWithinBounds(vs, k);
    }
    MedianOfSortedWithin(s, MinOf(vs), MaxOf(vs));
    var m := MedianOfSorted(s).v;
    if |s| % 2 == 1 {
      assert m in multiset(s);
    }
  }

  /** MEDIAN of at least one value lies between MIN and MAX; for an odd count it is one of the values. */
  lemma MedianBetweenMinAndMax(cells: seq<Option<ExactLong>>)
    requires Present(cells) != []
    ensures AggregateSpec(Median, cells).Value?
    ensures AggregateSpec(Min, cells).v <= AggregateSpec(Median, cells).v <= AggregateSpec(Max, cells).v
    ensures |Present(cells)| % 2 == 1 ==> AggregateSpec(Median, cells).v in Present(cells)
  {
    MedianWithin(Present(cells));
  }

  /** MEDIAN of no value fails at index -1, while the other folds fall back to their start values. */
  lemma EmptyInput(cells: seq<Option<ExactLong>>)
    requires Present(cells) == []
    ensures AggregateSpec(Median, cells) == IndexOutOfBounds(-1)
    ensures AggregateSpec(Max, cells) == Value(LongMin)
    ensures AggregateSpec(Min, cells) == Value(LongMax)
    ensures AggregateSpec(Sum, cells) == Value(0) && AggregateSpec(Avg, cells) == Value(0)
  {
  }
}
