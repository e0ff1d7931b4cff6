/**
  Splitting money by ratios: every share is truncated to whole minor units, and what is left over
  goes a unit at a time to the earliest ratios that are not zero. Amounts are in minor units.
 */
module Allocation {
  import opened Wrappers
  import opened Rounding

  /** Division that truncates toward zero. */
  function Truncated(n: int, d: nat): int
    requires d > 0
  {
    if n < 0 then -(Magnitude(n) / d) else Magnitude(n) / d
  }

  function Total(xs: seq<int>, n: nat): int
    requires n <= |xs|
    decreases n
  {
    if n == 0 then 0 else Total(xs, n - 1) + xs[n - 1]
  }

  /** How many of the first n ratios are not zero. */
  function Rank(ratios: seq<int>, n: nat): nat
    requires n <= |ratios|
    decreases n
  {
    if n == 0 then 0 else Rank(ratios, n - 1) + if ratios[n - 1] != 0 then 1 else 0
  }

  predicate RatiosOk(ratios: seq<int>) {
    (forall i :: 0 <= i < |ratios| ==> ratios[i] >= 0) && exists i :: 0 <= i < |ratios| && ratios[i] != 0
  }

  function Share(amount: int, ratios: seq<int>, i: nat): int
    requires i < |ratios| && Total(ratios, |ratios|) > 0
  {
    Truncated(amount * ratios[i], Total(ratios, |ratios|))
  }

  function ShareTotal(amount: int, ratios: seq<int>, n: nat): int
    requires n <= |ratios| && Total(ratios, |ratios|) > 0
    decreases n
  {
    if n == 0 then 0 else ShareTotal(amount, ratios, n - 1) + Share(amount, ratios, n - 1)
  }

  function Leftover(amount: int, ratios: seq<int>): int
    requires Total(ratios, |ratios|) > 0
  {
    amount - ShareTotal(amount, ratios, |ratios|)
  }

  function Extra(amount: int, ratios: seq<int>, i: nat, given: nat): int
    requires i < |ratios| && Total(ratios, |ratios|) > 0
  {
    if ratios[i] == 0 || Rank(ratios, i) >= given then 0
    else if Leftover(amount, ratios) > 0 then 1 else -1
  }

  /** What one ratio receives. */
  function Part(amount: int, ratios: seq<int>, i: nat): int
    requires i < |ratios| && Total(ratios, |ratios|) > 0
  {
    Share(amount, ratios, i) + Extra(amount, ratios, i, Magnitude(Leftover(amount, ratios)))
  }

  function Parts(amount: int, ratios: seq<int>): seq<int>
    requires Total(ratios, |ratios|) > 0
  {
    seq(|ratios|, i requires 0 <= i < |ratios| => Part(amount, ratios, i))
  }

  // ------------------------------------------------------------------------- truncation

  lemma TruncatedNegates(n: int, d: nat)
    requires d > 0
    ensures Truncated(-n, d) == -Truncated(n, d)
  {
    assert Magnitude(-n) == Magnitude(n);
    if n == 0 { DivisionBounds(0, d); }
  }

  lemma TruncatedLoss(n: nat, d: nat)
    requires d > 0
    ensures 0 <= n - Truncated(n, d) * d <= d - 1
    ensures n == 0 ==> Truncated(n, d) == 0
  {
    DivisionBounds(n, d);
  }

  lemma {:induction false} TotalPositive(ratios: seq<int>, n: nat)
    requires n <= |ratios| && forall i :: 0 <= i < |ratios| ==> ratios[i] >= 0
    ensures Total(ratios, n) >= 0
    ensures Total(ratios, n) > 0 <==> exists i :: 0 <= i < n && ratios[i] != 0
    decreases n
  {
    if n > 0 { TotalPositive(ratios, n - 1); }
  }

  lemma RatiosTotal(ratios: seq<int>)
    requires RatiosOk(ratios)
    ensures Total(ratios, |ratios|) > 0
  {
    TotalPositive(ratios, |ratios|);
  }

  // ------------------------------------------------------------------------- the leftover

  function Loss(amount: int, ratios: seq<int>, i: nat): int
    requires i < |ratios| && Total(ratios, |ratios|) > 0
  {
    amount * ratios[i] - Share(amount, ratios, i) * Total(ratios, |ratios|)
  }

  function Losses(amount: int, ratios: seq<int>, n: nat): int
    requires n <= |ratios| && Total(ratios, |ratios|) > 0
    decreases n
  {
    if n == 0 then 0 else Losses(amount, ratios, n - 1) + Loss(amount, ratios, n - 1)
  }

  /** Truncating loses less than a unit at a ratio that is not zero, and nothing at the others. */
  lemma LossBounds(amount: nat, ratios: seq<int>, i: nat)
    requires i < |ratios| && Total(ratios, |ratios|) > 0 && ratios[i] >= 0
    ensures 0 <= Loss(amount, ratios, i) <= Total(ratios, |ratios|) - 1
    ensures ratios[i] == 0 ==> Share(amount, ratios, i) == 0 && Loss(amount, ratios, i) == 0
  {
    Product(amount, ratios[i]);
    TruncatedLoss(amount * ratios[i], Total(ratios, |ratios|));
    if ratios[i] == 0 { assert amount * ratios[i] == 0; }
  }

  lemma {:induction false} LossesBounds(amount: nat, ratios: seq<int>, n: nat)
    requires RatiosOk(ratios) && Total(ratios, |ratios|) > 0 && n <= |ratios|
    ensures 0 <= Losses(amount, ratios, n) <= Rank(ratios, n) * (Total(ratios, |ratios|) - 1)
    decreases n
  {
    if n > 0 {
      LossesBounds(amount, ratios, n - 1);
      LossBounds(amount, ratios, n - 1);
      var k, most := Rank(ratios, n - 1), Total(ratios, |ratios|) - 1;
      assert (k + 1) * most == k * most + most;
    }
  }

  lemma {:induction false} LossesMeaning(amount: int, ratios: seq<int>, n: nat)
    requires n <= |ratios| && Total(ratios, |ratios|) > 0
    ensures Losses(amount, ratios, n) ==
              amount * Total(ratios, n) - ShareTotal(amount, ratios, n) * Total(ratios, |ratios|)
    decreases n
  {
    if n > 0 {
      LossesMeaning(amount, ratios, n - 1);
      Distribute(amount, Total(ratios, n - 1), ratios[n - 1]);
      Distribute(Total(ratios, |ratios|), ShareTotal(amount, ratios, n - 1), Share(amount, ratios, n - 1));
    }
  }

  lemma Distribute(k: int, a: int, b: int)
    ensures k * (a + b) == k * a + k * b
    ensures (a + b) * k == a * k + b * k
  {
  }

  /** What is left over from an amount of units is fewer than the ratios that are not zero. */
  lemma LeftoverFits(amount: nat, ratios: seq<int>)
    requires RatiosOk(ratios) && Total(ratios, |ratios|) > 0
    ensures 0 <= Leftover(amount, ratios) < Rank(ratios, |ratios|)
  {
    var total, left := Total(ratios, |ratios|), Leftover(amount, ratios);
    var k := Rank(ratios, |ratios|);
    LossesMeaning(amount, ratios, |ratios|);
    LossesBounds(amount, ratios, |ratios|);
    Distribute(total, amount, -ShareTotal(amount, ratios, |ratios|));
    assert left * total == Losses(amount, ratios, |ratios|);
    SomeRank(ratios);
    BelowBound(left, total, k);
  }

  lemma BelowBound(left: int, total: nat, k: nat)
    requires total > 0 && k > 0 && 0 <= left * total <= k * (total - 1)
    ensures 0 <= left < k
  {
    Times(left, -1, total);
    Times(k, left, total);
    Distribute(k, total, -1);
  }

  lemma {:induction false} RankPositive(ratios: seq<int>, n: nat, i: nat)
    requires i < n <= |ratios| && ratios[i] != 0
    ensures Rank(ratios, n) > 0
    decreases n
  {
    if i < n - 1 { RankPositive(ratios, n - 1, i); }
  }

  lemma SomeRank(ratios: seq<int>)
    requires RatiosOk(ratios)
    ensures Rank(ratios, |ratios|) > 0
  {
    var i :| 0 <= i < |ratios| && ratios[i] != 0;
    RankPositive(ratios, |ratios|, i);
  }

  // ------------------------------------------------------------------------- negation

  lemma ShareNegates(amount: int, ratios: seq<int>, i: nat)
    requires i < |ratios| && Total(ratios, |ratios|) > 0
    ensures Share(-amount, ratios, i) == -Share(amount, ratios, i)
  {
    assert (-amount) * ratios[i] == -(amount * ratios[i]);
    TruncatedNegates(amount * ratios[i], Total(ratios, |ratios|));
  }

  lemma {:induction false} ShareTotalNegates(amount: int, ratios: seq<int>, n: nat)
    requires n <= |ratios| && Total(ratios, |ratios|) > 0
    ensures ShareTotal(-amount, ratios, n) == -ShareTotal(amount, ratios, n)
    decreases n
  {
    if n > 0 {
      ShareTotalNegates(amount, ratios, n - 1);
      ShareNegates(amount, ratios, n - 1);
    }
  }

  /** Negating the amount negates every part. */
  lemma PartNegates(amount: int, ratios: seq<int>, i: nat)
    requires RatiosOk(ratios) && i < |ratios| && Total(ratios, |ratios|) > 0
    ensures Part(-amount, ratios, i) == -Part(amount, ratios, i)
  {
    ShareNegates(amount, ratios, i);
    ShareTotalNegates(amount, ratios, |ratios|);
  }

  // ------------------------------------------------------------------------- results

  function Least(a: nat, b: nat): nat { if a < b then a else b }

  /** Handing out the leftover reaches the earliest ratios that are not zero, one unit each. */
  lemma {:induction false} PartsSoFar(amount: int, ratios: seq<int>, n: nat)
    requires n <= |ratios| && Total(ratios, |ratios|) > 0
    ensures var left := Leftover(amount, ratios);
            Total(Parts(amount, ratios), n) == ShareTotal(amount, ratios, n)
              + (if left > 0 then 1 else -1) * Least(Rank(ratios, n), Magnitude(left))
    decreases n
  {
    if n > 0 { PartsSoFar(amount, ratios, n - 1); }
  }

  lemma ConservedPositive(amount: nat, ratios: seq<int>)
    requires RatiosOk(ratios) && Total(ratios, |ratios|) > 0
    ensures Total(Parts(amount, ratios), |ratios|) == amount
  {
    PartsSoFar(amount, ratios, |ratios|);
    LeftoverFits(amount, ratios);
  }

  lemma {:induction false} TotalNegates(xs: seq<int>, ys: seq<int>, n: nat)
    requires |xs| == |ys| && n <= |xs| && forall i :: 0 <= i < |xs| ==> ys[i] == -xs[i]
    ensures Total(ys, n) == -Total(xs, n)
    decreases n
  {
    if n > 0 { TotalNegates(xs, ys, n - 1); }
  }

  /** The parts add up to the amount, whatever its sign. */
  lemma Conserved(amount: int, ratios: seq<int>)
    requires RatiosOk(ratios) && Total(ratios, |ratios|) > 0
    ensures Total(Parts(amount, ratios), |ratios|) == amount
  {
    if amount >= 0 {
      ConservedPositive(amount, ratios);
    } else {
      ConservedPositive(-amount, ratios);
      forall i | 0 <= i < |ratios| ensures Part(amount, ratios, i) == -Part(-amount, ratios, i) {
        PartNegates(-amount, ratios, i);
      }
      TotalNegates(Parts(-amount, ratios), Parts(amount, ratios), |ratios|);
    }
  }

  /** A part differs from its exact share by at most one unit, and a zero ratio receives nothing. */
  predicate Fair(amount: int, ratios: seq<int>, i: nat, part: int)
    requires i < |ratios|
  {
    var total := Total(ratios, |ratios|);
    && -total <= part * total - amount * ratios[i] <= total
    && (ratios[i] == 0 ==> part == 0)
  }

  lemma FairPositive(amount: nat, ratios: seq<int>, i: nat)
    requires RatiosOk(ratios) && i < |ratios| && Total(ratios, |ratios|) > 0
    ensures Fair(amount, ratios, i, Part(amount, ratios, i))
  {
    LossBounds(amount, ratios, i);
    LeftoverFits(amount, ratios);
    Distribute(Total(ratios, |ratios|), Share(amount, ratios, i), 1);
  }

  lemma FairNegates(amount: int, ratios: seq<int>, i: nat, part: int)
    requires i < |ratios| && Fair(amount, ratios, i, part)
    ensures Fair(-amount, ratios, i, -part)
  {
    var total := Total(ratios, |ratios|);
    assert (-part) * total == -(part * total);
    assert (-amount) * ratios[i] == -(amount * ratios[i]);
  }

  lemma PartFair(amount: int, ratios: seq<int>, i: nat)
    requires RatiosOk(ratios) && i < |ratios| && Total(ratios, |ratios|) > 0
    ensures Fair(amount, ratios, i, Part(amount, ratios, i))
  {
    if amount >= 0 {
      FairPositive(amount, ratios, i);
    } else {
      FairPositive(-amount, ratios, i);
      PartNegates(-amount, ratios, i);
      FairNegates(-amount, ratios, i, Part(-amount, ratios, i));
    }
  }

  /** A later ratio gets a leftover unit only if every earlier one that is not zero gets one too. */
  lemma EarliestFirst(amount: int, ratios: seq<int>, i: nat, j: nat)
    requires i < j < |ratios| && Total(ratios, |ratios|) > 0 && ratios[i] != 0
    requires Part(amount, ratios, j) != Share(amount, ratios, j)
    ensures Part(amount, ratios, i) - Share(amount, ratios, i)
              == Part(amount, ratios, j) - Share(amount, ratios, j)
  {
    RankBelow(ratios, i, j);
  }

  /** The parts of a positive amount, without the loops: each is the whole units of its exact share,
      or one more; one more only at a ratio that is not zero, and then also at every earlier such
      ratio. With `Conserved` this leaves one possibility. */
  lemma PartsExact(amount: nat, ratios: seq<int>, i: nat)
    requires RatiosOk(ratios) && i < |ratios| && Total(ratios, |ratios|) > 0
    ensures var total, part := Total(ratios, |ratios|), Part(amount, ratios, i);
            && (part == amount * ratios[i] / total || part == amount * ratios[i] / total + 1)
            && (part == amount * ratios[i] / total + 1 ==>
                  && ratios[i] != 0
                  && forall k :: 0 <= k < i && ratios[k] != 0 ==>
                       Part(amount, ratios, k) == amount * ratios[k] / total + 1)
  {
    LeftoverFits(amount, ratios);
    forall k | 0 <= k < |ratios|
      ensures Share(amount, ratios, k) == amount * ratios[k] / Total(ratios, |ratios|)
    {
      Product(amount, ratios[k]);
    }
    forall k | 0 <= k < i ensures Rank(ratios, k) <= Rank(ratios, i) {
      RankBelow(ratios, k, i);
    }
  }

  // ------------------------------------------------------------------------- the operation

  datatype Refusal = NoRatios | BadRatios | NotWholeUnits

  /** Does quantizing to the currency's exponent leave the amount as it is? */
  predicate WholeUnits(amount: Decimal, exponent: nat) {
    amount.coef * Pow10(exponent) == Quantize(amount, exponent) * Pow10(amount.places)
  }

  /** The amount is that many minor units. */
  predicate Units(amount: Decimal, exponent: nat, units: int) {
    amount.coef * Pow10(exponent) == units * Pow10(amount.places)
  }

  /** Quantizing changes nothing exactly when the amount is a whole number of minor units; then it
      gives that number. */
  lemma WholeUnitsExact(amount: Decimal, exponent: nat)
    ensures WholeUnits(amount, exponent) <==> exists units :: Units(amount, exponent, units)
    ensures forall units :: Units(amount, exponent, units) ==> Quantize(amount, exponent) == units
  {
    if WholeUnits(amount, exponent) { assert Units(amount, exponent, Quantize(amount, exponent)); }
    forall units | Units(amount, exponent, units) ensures Quantize(amount, exponent) == units {
      ExactRounds(units, Pow10(amount.places));
      QuantizeRounds(amount, exponent);
      RoundsUnique(amount, exponent, units, Quantize(amount, exponent));
    }
  }

  /** The parts, in minor units of a currency with that exponent. An amount that is not a whole number
      of minor units is refused, and the parts together are the amount. */
  method Allocate(amount: Decimal, exponent: nat, ratios: seq<int>)
    returns (r: Result<seq<int>, Refusal>)
    ensures r.Ok? <==> RatiosOk(ratios) && exists units :: Units(amount, exponent, units)
    ensures r.Ok? ==>
              && Total(ratios, |ratios|) > 0
              && |r.value| == |ratios| && Units(amount, exponent, Total(r.value, |r.value|))
              && r.value == Parts(Total(r.value, |r.value|), ratios)
    ensures r == Err(NoRatios) <==> ratios == []
    ensures r == Err(BadRatios) <==> ratios != [] && !RatiosOk(ratios)
  {
    if ratios == [] { return Err(NoRatios); }
    if !RatiosOk(ratios) { return Err(BadRatios); }
    WholeUnitsExact(amount, exponent);
    if !WholeUnits(amount, exponent) { return Err(NotWholeUnits); }
    RatiosTotal(ratios);
    var units := Quantize(amount, exponent);
    var amounts := Shares(units, ratios);
    var remainder := Leftover(units, ratios);
    var adjustment := if remainder > 0 then 1 else -1;
    var eligible := Eligible(ratios);
    var count := if Magnitude(remainder) < |eligible| then Magnitude(remainder) else |eligible|;
    var k := 0;
    while k < count
      invariant 0 <= k <= count && |amounts| == |ratios|
      invariant forall i :: 0 <= i < |ratios| ==>
                              amounts[i] == Share(units, ratios, i) + Extra(units, ratios, i, k)
    {
      var index := eligible[k];
      amounts := amounts[index := amounts[index] + adjustment];
      RankOrders(ratios, eligible, index, k);
      k := k + 1;
    }
    HandedOut(units, ratios, amounts, count);
    Conserved(units, ratios);
    return Ok(amounts);
  }

  /** Handing out no more units than there are ratios to take them leaves none out. */
  lemma HandedOut(units: int, ratios: seq<int>, amounts: seq<int>, count: nat)
    requires Total(ratios, |ratios|) > 0 && |amounts| == |ratios|
    requires count == Least(Magnitude(Leftover(units, ratios)), Rank(ratios, |ratios|))
    requires forall i :: 0 <= i < |ratios| ==>
                           amounts[i] == Share(units, ratios, i) + Extra(units, ratios, i, count)
    ensures amounts == Parts(units, ratios)
  {
    forall i | 0 <= i < |ratios| ensures amounts[i] == Part(units, ratios, i) {
      RankBelow(ratios, i, |ratios|);
    }
  }

  method Shares(amount: int, ratios: seq<int>) returns (amounts: seq<int>)
    requires Total(ratios, |ratios|) > 0
    ensures |amounts| == |ratios|
    ensures forall i :: 0 <= i < |ratios| ==> amounts[i] == Share(amount, ratios, i)
  {
    amounts := [];
    while |amounts| < |ratios|
      invariant |amounts| <= |ratios|
      invariant forall i :: 0 <= i < |amounts| ==> amounts[i] == Share(amount, ratios, i)
    {
      amounts := amounts + [Truncated(amount * ratios[|amounts|], Total(ratios, |ratios|))];
    }
  }

  /** The positions of the ratios that are not zero, each at its rank. */
  ghost predicate Ranked(ratios: seq<int>, eligible: seq<nat>, n: nat)
    requires n <= |ratios|
  {
    && |eligible| == Rank(ratios, n)
    && forall k :: 0 <= k < |eligible| ==>
         eligible[k] < n && ratios[eligible[k]] != 0 && Rank(ratios, eligible[k]) == k
  }

  method Eligible(ratios: seq<int>) returns (eligible: seq<nat>)
    ensures Ranked(ratios, eligible, |ratios|)
  {
    eligible := [];
    for i := 0 to |ratios|
      invariant Ranked(ratios, eligible, i)
    {
      if ratios[i] != 0 { eligible := eligible + [i]; }
    }
  }

  lemma {:induction false} RankBelow(ratios: seq<int>, i: nat, n: nat)
    requires i < n <= |ratios|
    ensures Rank(ratios, i) + (if ratios[i] != 0 then 1 else 0) <= Rank(ratios, n)
    decreases n
  {
    if i < n - 1 { RankBelow(ratios, i, n - 1); }
  }

  /** No two ratios that are not zero have one rank. */
  lemma RankOrders(ratios: seq<int>, eligible: seq<nat>, index: nat, k: nat)
    requires Ranked(ratios, eligible, |ratios|) && k < |eligible| && eligible[k] == index
    ensures forall i :: 0 <= i < |ratios| && i != index && ratios[i] != 0 ==> Rank(ratios, i) != k
  {
    forall i | 0 <= i < |ratios| && i != index && ratios[i] != 0 ensures Rank(ratios, i) != k {
      if i < index { RankBelow(ratios, i, index); } else { RankBelow(ratios, index, i); }
    }
  }
}
