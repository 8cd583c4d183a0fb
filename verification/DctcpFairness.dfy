/** The byte counters of examples/tcp/dctcp-example.cc and Jain's fairness index of a group of
    flows, computed from them with 64-bit unsigned sums.
 */
module DctcpFairness {

  import opened CxxText

  function Wrap(x: nat): nat { x % UINT64 }

  // ----- exact sums

  function Sum(bytes: seq<nat>): nat {
    if bytes == [] then 0 else Sum(bytes[..|bytes| - 1]) + bytes[|bytes| - 1]
  }

  function SumSquares(bytes: seq<nat>): nat {
    if bytes == [] then 0
    else SumSquares(bytes[..|bytes| - 1]) + bytes[|bytes| - 1] * bytes[|bytes| - 1]
  }

  ghost predicate AllEqual(bytes: seq<nat>) {
    forall i, j :: 0 <= i < |bytes| && 0 <= j < |bytes| ==> bytes[i] == bytes[j]
  }

  /** The squared differences of one value to all others. */
  function Spread(bytes: seq<nat>, x: nat): nat {
    if bytes == [] then 0
    else Spread(bytes[..|bytes| - 1], x) + (bytes[|bytes| - 1] - x) * (bytes[|bytes| - 1] - x)
  }

  lemma {:induction false} SpreadExpand(bytes: seq<nat>, x: nat)
    ensures Spread(bytes, x) + 2 * x * Sum(bytes) == SumSquares(bytes) + |bytes| * (x * x)
  {
    if bytes == [] {
    } else {
      var front, y := bytes[..|bytes| - 1], bytes[|bytes| - 1];
      SpreadExpand(front, x);
      SpreadStep(|front|, Sum(front), SumSquares(front), x, y, Spread(front, x));
    }
  }

  lemma SpreadStep(n: nat, s: nat, q: nat, x: nat, y: nat, spread: nat)
    requires spread + 2 * x * s == q + n * (x * x)
    ensures spread + (y - x) * (y - x) + 2 * x * (s + y) == q + y * y + (n + 1) * (x * x)
  {
    assert (y - x) * (y - x) == y * y - 2 * x * y + x * x;
    assert 2 * x * (s + y) == 2 * x * s + 2 * x * y;
    assert (n + 1) * (x * x) == n * (x * x) + x * x;
  }

  lemma {:induction false} SpreadZero(bytes: seq<nat>, x: nat)
    ensures Spread(bytes, x) == 0 <==> forall i :: 0 <= i < |bytes| ==> bytes[i] == x
  {
    if bytes == [] {
    } else {
      var front, y := bytes[..|bytes| - 1], bytes[|bytes| - 1];
      SpreadZero(front, x);
      assert (y - x) * (y - x) >= 0;
      if y != x { NonZeroSquare(y - x); }
    }
  }

  lemma NonZeroSquare(d: int)
    requires d != 0
    ensures d * d > 0
  {
    if d > 0 { assert d * d >= d; } else { assert d * d == (-d) * (-d) && (-d) * (-d) >= -d; }
  }

  /** The Cauchy-Schwarz inequality for the index: at most 1, and 1 only for equal flows. */
  lemma {:induction false} FairnessAtMostOne(bytes: seq<nat>)
    ensures Sum(bytes) * Sum(bytes) <= |bytes| * SumSquares(bytes)
    ensures Sum(bytes) * Sum(bytes) == |bytes| * SumSquares(bytes) <==> AllEqual(bytes)
  {
    if bytes == [] {
    } else {
      var front, x := bytes[..|bytes| - 1], bytes[|bytes| - 1];
      FairnessAtMostOne(front);
      SpreadExpand(front, x);
      SpreadZero(front, x);
      FairnessStep(|front|, Sum(front), SumSquares(front), x, Spread(front, x));
      if AllEqual(bytes) {
        forall i, j | 0 <= i < |front| && 0 <= j < |front| ensures front[i] == front[j] {
          assert front[i] == bytes[i] && front[j] == bytes[j];
        }
      }
      if Spread(front, x) == 0 {
        forall i | 0 <= i < |bytes| ensures bytes[i] == x {
          if i < |front| { assert front[i] == bytes[i]; }
        }
      } else {
        var i :| 0 <= i < |front| && front[i] != x;
        assert bytes[i] != bytes[|bytes| - 1];
      }
    }
  }

  lemma FairnessStep(n: nat, s: nat, q: nat, x: nat, spread: nat)
    requires s * s <= n * q && spread + 2 * x * s == q + n * (x * x)
    ensures (n + 1) * (q + x * x) - (s + x) * (s + x) == (n * q - s * s) + spread
  {
    assert (s + x) * (s + x) == s * s + 2 * x * s + x * x;
    assert (n + 1) * (q + x * x) == n * q + n * (x * x) + q + x * x;
  }

  /** At least 1/n: the squares never exceed the square of the sum. */
  lemma {:induction false} FairnessAtLeastOneNth(bytes: seq<nat>)
    ensures SumSquares(bytes) <= Sum(bytes) * Sum(bytes)
    ensures SumSquares(bytes) == 0 <==> Sum(bytes) == 0
  {
    if bytes == [] {
    } else {
      var s, x := Sum(bytes[..|bytes| - 1]), bytes[|bytes| - 1];
      FairnessAtLeastOneNth(bytes[..|bytes| - 1]);
      assert (s + x) * (s + x) == s * s + 2 * (s * x) + x * x;
      if x != 0 { NonZeroSquare(x); }
    }
  }

  // ----- the machine computation

  /** The index as PrintFairness computes it: numerator and denominator of the double division,
      each after 64-bit wrap-around. */
  method Fairness(bytes: array<nat>) returns (numerator: nat, denominator: nat)
    ensures numerator == Wrap(Sum(bytes[..]) * Sum(bytes[..]))
    ensures denominator == Wrap(bytes.Length * SumSquares(bytes[..]))
  {
    hide Sum, SumSquares;
    var sum, sumSquares := 0, 0;
    NothingReceived();
    for i := 0 to bytes.Length
      invariant sum == Wrap(Sum(bytes[..i]))
      invariant sumSquares == Wrap(SumSquares(bytes[..i]))
    {
      Accumulates(bytes[..i], bytes[i]);
      assert bytes[..i + 1] == bytes[..i] + [bytes[i]];
      sum := Wrap(sum + bytes[i]);
      sumSquares := Wrap(sumSquares + Wrap(bytes[i] * bytes[i]));
    }
    assert bytes[..bytes.Length] == bytes[..];
    WrapProduct(Sum(bytes[..]), Sum(bytes[..]));
    WrapTimes(bytes.Length, SumSquares(bytes[..]));
    numerator := Wrap(sum * sum);
    denominator := Wrap(bytes.Length * sumSquares);
  }

  lemma NothingReceived()
    ensures Sum([]) == 0 && SumSquares([]) == 0
  {
  }

  /** One turn of the loop. */
  lemma Accumulates(front: seq<nat>, x: nat)
    ensures Wrap(Wrap(Sum(front)) + x) == Wrap(Sum(front + [x]))
    ensures Wrap(Wrap(SumSquares(front)) + Wrap(x * x)) == Wrap(SumSquares(front + [x]))
  {
    assert (front + [x])[..|front|] == front;
    WrapSum(Sum(front), x);
    WrapSum(SumSquares(front), x * x);
    WrapAdd(Wrap(SumSquares(front)), x * x);
  }

  lemma WrapSum(a: nat, b: nat)
    ensures Wrap(Wrap(a) + b) == Wrap(a + b)
  {
    SameRemainder(Wrap(a) + b, a + b, a / UINT64);
  }

  lemma WrapAdd(a: nat, b: nat)
    ensures Wrap(a + Wrap(b)) == Wrap(a + b)
  {
    SameRemainder(a + Wrap(b), a + b, b / UINT64);
  }

  lemma WrapTimes(n: nat, a: nat)
    ensures Wrap(n * Wrap(a)) == Wrap(n * a)
  {
    var k := a / UINT64;
    assert a == Wrap(a) + k * UINT64;
    assert n * a == n * Wrap(a) + (n * k) * UINT64;
    SameRemainder(n * Wrap(a), n * a, n * k);
  }

  lemma WrapProduct(a: nat, b: nat)
    ensures Wrap(Wrap(a) * Wrap(b)) == Wrap(a * b)
  {
    WrapTimes(Wrap(a), b);
    WrapTimes(b, a);
    assert Wrap(a) * b == b * Wrap(a) && a * b == b * a;
  }

  /** Numbers that differ by a multiple of 2^64 wrap to the same value. */
  lemma {:induction false} SameRemainder(a: nat, b: nat, k: nat)
    requires b == a + k * UINT64
    ensures a % UINT64 == b % UINT64
    decreases k
  {
    if k == 0 {
    } else {
      SameRemainder(a, b - UINT64, k - 1);
    }
  }

  /** Nothing wraps exactly when the denominator stays below 2^64; then the numerator is at
      most the denominator, at least an n-th of it, and equal to it exactly for equal flows. */
  lemma ExactIff(bytes: seq<nat>)
    ensures var s, q := Sum(bytes) * Sum(bytes), |bytes| * SumSquares(bytes);
      && (Wrap(s) == s && Wrap(q) == q <==> q < UINT64)
      && (q < UINT64 ==> Wrap(s) <= Wrap(q) <= |bytes| * Wrap(s))
      && (q < UINT64 ==> (Wrap(s) == Wrap(q) <==> AllEqual(bytes)))
  {
    FairnessAtMostOne(bytes);
    FairnessAtLeastOneNth(bytes);
    hide Sum, SumSquares, AllEqual;
    var s, q := Sum(bytes) * Sum(bytes), |bytes| * SumSquares(bytes);
    Scale(|bytes|, SumSquares(bytes), s);
    WrapIff(s);
    WrapIff(q);
  }

  lemma WrapIff(a: nat)
    ensures Wrap(a) == a <==> a < UINT64
  {
  }

  lemma Scale(n: nat, a: nat, b: nat)
    requires a <= b
    ensures n * a <= n * b
  {
  }

  /** The reported quotient, over the reals: between 1/n and 1, and 1 only for equal flows. In an
      interval in which nothing arrives the program divides zero by zero; otherwise, and only
      then, there is a quotient. */
  lemma IndexBounds(bytes: seq<nat>)
    requires bytes != [] && |bytes| * SumSquares(bytes) < UINT64
    ensures var a, b := Wrap(Sum(bytes) * Sum(bytes)) as real, Wrap(|bytes| * SumSquares(bytes)) as real;
      && (b == 0.0 <==> Sum(bytes) == 0) && (b == 0.0 ==> a == 0.0) && b >= 0.0
      && (b > 0.0 ==> 1.0 / (|bytes| as real) <= a / b <= 1.0)
      && (b > 0.0 ==> (a / b == 1.0 <==> AllEqual(bytes)))
  {
    var s := Sum(bytes);
    ExactIff(bytes);
    FairnessAtLeastOneNth(bytes);
    hide Sum, SumSquares, AllEqual;
    if s > 0 {
      NonZeroSquare(s);
      Quotient(s * s, |bytes| * SumSquares(bytes), |bytes|);
    }
  }

  lemma Quotient(a: nat, b: nat, n: nat)
    requires 0 < a <= b <= n * a
    ensures 1.0 / (n as real) <= a as real / b as real <= 1.0
    ensures a as real / b as real == 1.0 <==> a == b
  {
    var x, y, z := a as real, b as real, n as real;
    assert y <= z * x by { assert z * x == (n * a) as real; }
    assert x / y == x * (1.0 / y);
    var q, r := x / y, 1.0 / z;
    assert q * y == x && r * z == 1.0;
    assert r * (z * x) == (r * z) * x;
    CancelPositive(r, q, y);
  }

  lemma CancelPositive(a: real, b: real, c: real)
    requires c > 0.0 && a * c <= b * c
    ensures a <= b
  {
  }

  /** The other side of the bound: ten flows of exactly 2 GiB each are perfectly fair, and both
      parts of their index wrap to zero. */
  lemma LargeCountersWrap(bytes: seq<nat>)
    requires |bytes| == 10 && forall i :: 0 <= i < |bytes| ==> bytes[i] == 0x8000_0000
    ensures AllEqual(bytes)
    ensures Wrap(Sum(bytes) * Sum(bytes)) == 0 && Wrap(|bytes| * SumSquares(bytes)) == 0
  {
    SumsOfEqual(bytes, 0x8000_0000);
  }

  lemma {:induction false} SumsOfEqual(bytes: seq<nat>, x: nat)
    requires forall i :: 0 <= i < |bytes| ==> bytes[i] == x
    ensures Sum(bytes) == |bytes| * x && SumSquares(bytes) == |bytes| * (x * x)
  {
    if bytes == [] {
    } else {
      SumsOfEqual(bytes[..|bytes| - 1], x);
      assert |bytes| * x == (|bytes| - 1) * x + x;
      assert |bytes| * (x * x) == (|bytes| - 1) * (x * x) + x * x;
    }
  }

  /** For at most 20 flows, counters up to 214748364 bytes cannot wrap anything. */
  lemma SmallCountersAreExact(bytes: seq<nat>)
    requires |bytes| <= 20 && forall i :: 0 <= i < |bytes| ==> bytes[i] <= 214748364
    ensures |bytes| * SumSquares(bytes) < UINT64
  {
    var limit := 214748364 * 214748364;
    forall i | 0 <= i < |bytes| ensures bytes[i] * bytes[i] <= limit {
      SquareMonotone(bytes[i], 214748364);
    }
    SquaresBound(bytes, limit);
    Scale(|bytes|, SumSquares(bytes), 20 * limit);
    assert |bytes| * (20 * limit) <= 20 * (20 * limit);
  }

  lemma SquareMonotone(a: nat, b: nat)
    requires a <= b
    ensures a * a <= b * b
  {
    assert a * a <= a * b;
  }

  lemma {:induction false} SquaresBound(bytes: seq<nat>, limit: nat)
    requires forall i :: 0 <= i < |bytes| ==> bytes[i] * bytes[i] <= limit
    ensures SumSquares(bytes) <= |bytes| * limit
  {
    if bytes == [] {
    } else {
      SquaresBound(bytes[..|bytes| - 1], limit);
      assert |bytes| * limit == (|bytes| - 1) * limit + limit;
    }
  }

  // ----- the counters

  /** Counters that hold totals cut to 64 bits give the same index as the totals. */
  lemma {:induction false} CountersAgree(bytes: seq<nat>, totals: seq<nat>)
    requires |bytes| == |totals| && forall i :: 0 <= i < |bytes| ==> bytes[i] == Wrap(totals[i])
    ensures Wrap(Sum(bytes)) == Wrap(Sum(totals)) && Wrap(SumSquares(bytes)) == Wrap(SumSquares(totals))
  {
    if bytes == [] {
    } else {
      var b, t := bytes[..|bytes| - 1], totals[..|bytes| - 1];
      var x, y := bytes[|bytes| - 1], totals[|bytes| - 1];
      CountersAgree(b, t);
      assert x == Wrap(y);
      WrapProduct(y, y);
      AgreeStep(Sum(b), Sum(t), x, y);
      AgreeStep(SumSquares(b), SumSquares(t), x * x, y * y);
    }
  }

  lemma AgreeStep(a: nat, b: nat, x: nat, y: nat)
    requires Wrap(a) == Wrap(b) && Wrap(x) == Wrap(y)
    ensures Wrap(a + x) == Wrap(b + y)
  {
    WrapSum(a, x);
    WrapSum(b, y);
    WrapAdd(Wrap(a), x);
    WrapAdd(Wrap(b), y);
  }

  lemma IndexOfTotals(bytes: seq<nat>, totals: seq<nat>)
    requires |bytes| == |totals| && forall i :: 0 <= i < |bytes| ==> bytes[i] == Wrap(totals[i])
    ensures Wrap(Sum(bytes) * Sum(bytes)) == Wrap(Sum(totals) * Sum(totals))
    ensures Wrap(|bytes| * SumSquares(bytes)) == Wrap(|totals| * SumSquares(totals))
  {
    CountersAgree(bytes, totals);
    WrapProduct(Sum(bytes), Sum(bytes));
    WrapProduct(Sum(totals), Sum(totals));
    WrapTimes(|bytes|, SumSquares(bytes));
    WrapTimes(|totals|, SumSquares(totals));
  }

  datatype Index = Index(numerator: nat, denominator: nat)

  /** What PrintFairness should report of the bytes that really arrived. */
  ghost predicate Reports(index: Index, totals: seq<nat>) {
    && index.numerator == Wrap(Sum(totals) * Sum(totals))
    && index.denominator == Wrap(|totals| * SumSquares(totals))
  }

  /** The three global vectors of counters; the ghost fields hold the bytes each flow received
      since the counters were initialised. */
  class Counters {
    const rxS1R1Bytes: array<nat>
    const rxS2R2Bytes: array<nat>
    const rxS3R1Bytes: array<nat>
    ghost var s1r1: seq<nat>
    ghost var s2r2: seq<nat>
    ghost var s3r1: seq<nat>

    ghost predicate Counts(bytes: array<nat>, totals: seq<nat>)
      reads bytes
    {
      bytes.Length == |totals| && forall i :: 0 <= i < |totals| ==> bytes[i] == Wrap(totals[i])
    }

    ghost predicate Valid()
      reads this, rxS1R1Bytes, rxS2R2Bytes, rxS3R1Bytes
    {
      && |s1r1| == 10 && |s2r2| == 20 && |s3r1| == 10
      && rxS1R1Bytes != rxS2R2Bytes && rxS1R1Bytes != rxS3R1Bytes && rxS2R2Bytes != rxS3R1Bytes
      && Counts(rxS1R1Bytes, s1r1) && Counts(rxS2R2Bytes, s2r2) && Counts(rxS3R1Bytes, s3r1)
    }

    constructor ()
      ensures Valid() && fresh(rxS1R1Bytes) && fresh(rxS2R2Bytes) && fresh(rxS3R1Bytes)
    {
      rxS1R1Bytes, rxS2R2Bytes, rxS3R1Bytes := new nat[10](_ => 0), new nat[20](_ => 0), new nat[10](_ => 0);
      s1r1, s2r2, s3r1 := seq(10, _ => 0), seq(20, _ => 0), seq(10, _ => 0);
    }

    method InitializeCounters()
      requires Valid()
      modifies this, rxS1R1Bytes, rxS2R2Bytes, rxS3R1Bytes
      ensures Valid()
      ensures s1r1 == seq(10, _ => 0) && s2r2 == seq(20, _ => 0) && s3r1 == seq(10, _ => 0)
    {
      for i := 0 to 10
        invariant forall k :: 0 <= k < i ==> rxS1R1Bytes[k] == 0
      {
        rxS1R1Bytes[i] := 0;
      }
      for i := 0 to 20
        invariant forall k :: 0 <= k < i ==> rxS2R2Bytes[k] == 0
        invariant forall k :: 0 <= k < 10 ==> rxS1R1Bytes[k] == 0
      {
        rxS2R2Bytes[i] := 0;
      }
      for i := 0 to 10
        invariant forall k :: 0 <= k < i ==> rxS3R1Bytes[k] == 0
        invariant forall k :: 0 <= k < 10 ==> rxS1R1Bytes[k] == 0
        invariant forall k :: 0 <= k < 20 ==> rxS2R2Bytes[k] == 0
      {
        rxS3R1Bytes[i] := 0;
      }
      s1r1, s2r2, s3r1 := seq(10, _ => 0), seq(20, _ => 0), seq(10, _ => 0);
    }

    method TraceS1R1Sink(index: nat, size: nat)
      requires Valid() && index < 10
      modifies this`s1r1, rxS1R1Bytes
      ensures Valid() && s1r1 == old(s1r1)[index := old(s1r1[index]) + size]
    {
      WrapSum(s1r1[index], size);
      rxS1R1Bytes[index] := Wrap(rxS1R1Bytes[index] + size);
      s1r1 := s1r1[index := s1r1[index] + size];
    }

    method TraceS2R2Sink(index: nat, size: nat)
      requires Valid() && index < 20
      modifies this`s2r2, rxS2R2Bytes
      ensures Valid() && s2r2 == old(s2r2)[index := old(s2r2[index]) + size]
    {
      WrapSum(s2r2[index], size);
      rxS2R2Bytes[index] := Wrap(rxS2R2Bytes[index] + size);
      s2r2 := s2r2[index := s2r2[index] + size];
    }

    method TraceS3R1Sink(index: nat, size: nat)
      requires Valid() && index < 10
      modifies this`s3r1, rxS3R1Bytes
      ensures Valid() && s3r1 == old(s3r1)[index := old(s3r1[index]) + size]
    {
      WrapSum(s3r1[index], size);
      rxS3R1Bytes[index] := Wrap(rxS3R1Bytes[index] + size);
      s3r1 := s3r1[index := s3r1[index] + size];
    }

    /** The three indices, in terms of the bytes received: cutting the counters themselves to
        64 bits adds no error of its own. */
    method PrintFairness() returns (first: Index, second: Index, third: Index)
      requires Valid()
      ensures Reports(first, s1r1) && Reports(second, s2r2) && Reports(third, s3r1)
    {
      hide Sum, SumSquares;
      var n1, d1 := Fairness(rxS1R1Bytes);
      var n2, d2 := Fairness(rxS2R2Bytes);
      var n3, d3 := Fairness(rxS3R1Bytes);
      IndexOfTotals(rxS1R1Bytes[..], s1r1);
      IndexOfTotals(rxS2R2Bytes[..], s2r2);
      IndexOfTotals(rxS3R1Bytes[..], s3r1);
      first, second, third := Index(n1, d1), Index(n2, d2), Index(n3, d3);
    }
  }
}
