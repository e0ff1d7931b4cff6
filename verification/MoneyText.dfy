/**
  Three ways to round an amount to a currency's exponent: integer division on scaled amounts, the same
  on a product, and a carry on the digit string. All give the exact value rounded half up.
 */
module MoneyText {
  import opened Wrappers
  import opened Rounding
  import opened DecimalText

  /** Units of 10^-exponent of an amount, for charts. */
  function ChartUnits(value: string, exponent: nat): Option<int>
    requires exponent <= PLACES
  {
    match Scaled(value)
    case None => None
    case Some(x) => Some(HalfUp(x, Pow10(PLACES - exponent)))
  }

  function ProductUnits(x: int, y: int, exponent: nat): int
    requires exponent <= PLACES
  {
    HalfUp(x * y, Pow10(2 * PLACES - exponent))
  }

  /** Quantity times unit price, written with the exponent's places. */
  function MultiplyQuantize(quantity: string, price: string, exponent: nat): Option<string>
    requires exponent <= PLACES
  {
    match (Scaled(quantity), Scaled(price))
    case (Some(x), Some(y)) =>
      var units := ProductUnits(x, y, exponent);
      Some(Written(Units(units < 0, Magnitude(units), exponent)))
    case _ => None
  }

  /** The digit after the last one kept, or '0'. */
  function NextDigit(fraction: Digits, exponent: nat): char {
    if exponent < |fraction| then fraction[exponent] else '0'
  }

  /** The sign and digits shown for an amount of any number of places, before grouping. */
  function FormatMoney(value: string, exponent: nat): Option<Amount> {
    match Match(value)
    case None => None
    case Some(a) => Some(Units(a.negative, CarriedUnits(a, exponent), exponent))
  }

  function CarriedUnits(a: Amount, exponent: nat): nat {
    var kept := Number(a.whole + PadEnd(a.fraction, exponent)[..exponent]);
    if NextDigit(a.fraction, exponent) >= '5' then kept + 1 else kept
  }

  function Shown(a: Amount): int { Signed(a.negative, Number(a.whole + a.fraction)) }

  // ------------------------------------------------------------------------- scaling

  /** Rounding a value that has been written with n places is rounding the value. */
  lemma RescaledRounds(x: Decimal, n: nat, e: nat, r: int)
    requires x.places <= n && e <= n
    ensures IsHalfUp(x.coef * Pow10(n - x.places), Pow10(n - e), r) <==> Rounds(x, e, r)
  {
    var up, down := Pow10(n - x.places), Pow10(n - e);
    HalfUpScaled(x.coef * up, down, Pow10(e), r);
    HalfUpScaled(x.coef * Pow10(e), Pow10(x.places), up, r);
    Pow10Add(n - e, e);
    Pow10Add(x.places, n - x.places);
    Swap(x.coef, up, Pow10(e));
  }

  lemma Swap(a: int, b: int, c: int)
    ensures a * b * c == a * c * b
  {
  }

  lemma ChartRounds(value: string, exponent: nat)
    requires exponent <= PLACES && Scaled(value).Some?
    ensures Rounds(Exact(Match(value).value), exponent, ChartUnits(value, exponent).value)
  {
    ScaledExact(value);
    ScaledRounds(Exact(Match(value).value), Scaled(value).value, exponent);
  }

  lemma ScaledRounds(x: Decimal, v: int, exponent: nat)
    requires exponent <= PLACES && x.places <= PLACES && v == x.coef * Pow10(PLACES - x.places)
    ensures Rounds(x, exponent, HalfUp(v, Pow10(PLACES - exponent)))
  {
    HalfUpMeets(v, Pow10(PLACES - exponent));
    RescaledRounds(x, PLACES, exponent, HalfUp(v, Pow10(PLACES - exponent)));
  }

  // ------------------------------------------------------------------------- products

  function Product(x: Decimal, y: Decimal): Decimal {
    Decimal(x.coef * y.coef, x.places + y.places)
  }

  lemma ProductScaled(x: Decimal, y: Decimal)
    requires x.places <= PLACES && y.places <= PLACES
    ensures x.coef * Pow10(PLACES - x.places) * (y.coef * Pow10(PLACES - y.places))
              == x.coef * y.coef * Pow10(2 * PLACES - (x.places + y.places))
  {
    Pow10Add(PLACES - x.places, PLACES - y.places);
    Exchange(x.coef, Pow10(PLACES - x.places), y.coef, Pow10(PLACES - y.places));
  }

  lemma Exchange(a: int, b: int, c: int, d: int)
    ensures a * b * (c * d) == a * c * (b * d)
  {
    assert a * b * (c * d) == a * (b * (c * d));
    assert b * (c * d) == c * (b * d);
    assert a * (c * (b * d)) == a * c * (b * d);
  }

  lemma ScaledProductRounds(x: Decimal, y: Decimal, a: int, b: int, exponent: nat)
    requires exponent <= PLACES && x.places <= PLACES && y.places <= PLACES
    requires a == x.coef * Pow10(PLACES - x.places) && b == y.coef * Pow10(PLACES - y.places)
    ensures Rounds(Product(x, y), exponent, ProductUnits(a, b, exponent))
  {
    ProductScaled(x, y);
    HalfUpMeets(a * b, Pow10(2 * PLACES - exponent));
    RescaledRounds(Product(x, y), 2 * PLACES, exponent, ProductUnits(a, b, exponent));
  }

  lemma ProductRounds(quantity: string, price: string, exponent: nat)
    requires exponent <= PLACES && Scaled(quantity).Some? && Scaled(price).Some?
    ensures Rounds(Product(Exact(Match(quantity).value), Exact(Match(price).value)), exponent,
                   ProductUnits(Scaled(quantity).value, Scaled(price).value, exponent))
  {
    var x, y := Exact(Match(quantity).value), Exact(Match(price).value);
    ScaledExact(quantity);
    ScaledExact(price);
    ScaledProductRounds(x, y, Scaled(quantity).value, Scaled(price).value, exponent);
  }

  /** Multiplying as text is exact multiplication followed by quantize, and scaling the text loses
      nothing of it. */
  lemma MultiplyIsQuantize(quantity: string, price: string, exponent: nat)
    requires exponent <= PLACES && MultiplyQuantize(quantity, price, exponent).Some?
    ensures Match(quantity).Some? && Match(price).Some?
    ensures var exact := Product(Exact(Match(quantity).value), Exact(Match(price).value));
            Scaled(MultiplyQuantize(quantity, price, exponent).value)
              == Some(Quantize(exact, exponent) * Pow10(PLACES - exponent))
  {
    ProductRounds(quantity, price, exponent);
    RoundedText(Product(Exact(Match(quantity).value), Exact(Match(price).value)), exponent,
                ProductUnits(Scaled(quantity).value, Scaled(price).value, exponent));
  }

  /** The product's text shows the quantized value with exactly the exponent's places. */
  lemma MultiplyShows(quantity: string, price: string, exponent: nat)
    requires exponent <= PLACES && MultiplyQuantize(quantity, price, exponent).Some?
    ensures Match(quantity).Some? && Match(price).Some?
    ensures var units := Quantize(Product(Exact(Match(quantity).value), Exact(Match(price).value)),
                                  exponent);
            Match(MultiplyQuantize(quantity, price, exponent).value)
              == Some(Units(units < 0, Magnitude(units), exponent))
  {
    var units := ProductUnits(Scaled(quantity).value, Scaled(price).value, exponent);
    ProductRounds(quantity, price, exponent);
    RoundsAsQuantize(Product(Exact(Match(quantity).value), Exact(Match(price).value)), exponent, units);
    MatchWritten(Units(units < 0, Magnitude(units), exponent));
  }

  /** Exactly the texts of amounts can be multiplied. */
  lemma MultiplyAccepts(quantity: string, price: string, exponent: nat)
    requires exponent <= PLACES
    ensures MultiplyQuantize(quantity, price, exponent).Some? <==> IsAmount(quantity) && IsAmount(price)
  {
    ScaledAccepts(quantity);
    ScaledAccepts(price);
  }

  /** The text of units that a value rounds to scales to the quantized value. */
  lemma RoundedText(x: Decimal, exponent: nat, units: int)
    requires exponent <= PLACES && Rounds(x, exponent, units)
    ensures Scaled(Written(Units(units < 0, Magnitude(units), exponent)))
              == Some(Quantize(x, exponent) * Pow10(PLACES - exponent))
  {
    RoundsAsQuantize(x, exponent, units);
    ScaledUnits(units < 0, Magnitude(units), exponent);
    SignedMagnitude(units);
  }

  lemma RoundsAsQuantize(x: Decimal, exponent: nat, r: int)
    requires Rounds(x, exponent, r)
    ensures r == Quantize(x, exponent)
  {
    QuantizeRounds(x, exponent);
    RoundsUnique(x, exponent, r, Quantize(x, exponent));
  }

  lemma SignedMagnitude(n: int)
    ensures Signed(n < 0, Magnitude(n)) == n
  {
  }

  // ------------------------------------------------------------------------- the digit carry

  /** Looking at one more digit tells on which side of the half the dropped digits lie. */
  lemma DroppedHalf(rest: Digits)
    requires rest != ""
    ensures rest[0] >= '5' ==> Pow10(|rest|) <= 2 * Number(rest)
    ensures rest[0] < '5' ==> 2 * Number(rest) < Pow10(|rest|)
  {
    var tail := rest[1..];
    assert rest == rest[..1] + tail;
    NumberConcat(rest[..1], tail);
    NumberBelow(tail);
    OneDigit(rest[0]);
    LeadingDigit(DigitOf(rest[0]), Pow10(|tail|), Number(tail));
  }

  lemma OneDigit(c: char)
    requires IsDigit(c)
    ensures Number([c]) == DigitOf(c)
  {
    assert [c][..0] == "";
  }

  lemma LeadingDigit(c: nat, unit: nat, below: nat)
    requires c <= 9 && below < unit
    ensures c >= 5 ==> 10 * unit <= 2 * (c * unit + below)
    ensures c < 5 ==> 2 * (c * unit + below) < 10 * unit
  {
    Times(5, c, unit);
    Times(c, 4, unit);
  }

  lemma CarryNearest(front: nat, rest: Digits)
    requires rest != ""
    ensures Nearest(front * Pow10(|rest|) + Number(rest), Pow10(|rest|),
                    if rest[0] >= '5' then front + 1 else front)
  {
    var d := Pow10(|rest|);
    DroppedHalf(rest);
    NumberBelow(rest);
    Halves(front, d);
    Halves(front + 1, d);
    assert (front + 1) * d == front * d + d;
  }

  lemma Halves(r: nat, d: nat)
    ensures (2 * r - 1) * d == 2 * (r * d) - d && (2 * r + 1) * d == 2 * (r * d) + d
  {
  }

  lemma SignedHalfUp(negative: bool, n: nat, d: nat, u: nat)
    requires d > 0 && Nearest(n, d, u)
    ensures IsHalfUp(Signed(negative, n), d, Signed(negative, u))
  {
    if n == 0 && u > 0 { Times(1, 2 * u - 1, d); }
  }

  lemma FormatRounds(value: string, exponent: nat)
    requires Match(value).Some?
    ensures Rounds(Exact(Match(value).value), exponent, Shown(FormatMoney(value, exponent).value))
  {
    var a := Match(value).value;
    if |a.fraction| <= exponent {
      ExactFormat(a, exponent);
    } else {
      CarriedFormat(a, exponent);
    }
  }

  lemma ExactFormat(a: Amount, exponent: nat)
    requires |a.fraction| <= exponent
    ensures Rounds(Exact(a), exponent, Signed(a.negative, CarriedUnits(a, exponent)))
  {
    var padded := PadEnd(a.fraction, exponent);
    assert padded[..exponent] == padded;
    PaddedNumber(a.whole, a.fraction, exponent);
    SignedTimes(a.negative, Number(a.whole + a.fraction), Pow10(exponent - |a.fraction|));
    QuantizeRounds(Exact(a), exponent);
  }

  lemma CarriedFormat(a: Amount, exponent: nat)
    requires exponent < |a.fraction|
    ensures Rounds(Exact(a), exponent, Signed(a.negative, CarriedUnits(a, exponent)))
  {
    var front, rest := a.whole + a.fraction[..exponent], a.fraction[exponent..];
    assert a.whole + a.fraction == front + rest;
    NumberConcat(front, rest);
    CarryNearest(Number(front), rest);
    var units := if rest[0] >= '5' then Number(front) + 1 else Number(front);
    SignedHalfUp(a.negative, Number(front + rest), Pow10(|rest|), units);
    RescaledRounds(Exact(a), |a.fraction|, exponent, Signed(a.negative, units));
    assert Exact(a).coef * Pow10(0) == Exact(a).coef;
  }

  // ------------------------------------------------------------------------- results

  /** The carry on digits gives the value that quantize gives, for any number of places. */
  lemma FormatIsQuantize(value: string, exponent: nat)
    ensures FormatMoney(value, exponent).Some? <==> Match(value).Some?
    ensures Match(value).Some? ==>
              Shown(FormatMoney(value, exponent).value) == Quantize(Exact(Match(value).value), exponent)
  {
    if Match(value).Some? {
      FormatRounds(value, exponent);
      RoundsAsQuantize(Exact(Match(value).value), exponent, Shown(FormatMoney(value, exponent).value));
    }
  }

  /** An amount shows the same units in a chart and as money. */
  lemma ChartIsFormat(value: string, exponent: nat)
    requires exponent <= PLACES && Scaled(value).Some?
    ensures ChartUnits(value, exponent) == Some(Shown(FormatMoney(value, exponent).value))
  {
    ChartRounds(value, exponent);
    FormatRounds(value, exponent);
    RoundsUnique(Exact(Match(value).value), exponent, ChartUnits(value, exponent).value,
                 Shown(FormatMoney(value, exponent).value));
  }

  /** A minus sign stays on an amount that rounds to nothing. */
  lemma MinusZero(value: string, exponent: nat)
    requires Match(value).Some?
    ensures var shown := FormatMoney(value, exponent).value;
            shown.negative && Number(shown.whole + shown.fraction) == 0 <==>
              Match(value).value.negative && Quantize(Exact(Match(value).value), exponent) == 0
  {
    FormatIsQuantize(value, exponent);
  }

  // ------------------------------------------------------------------------- percentages

  function Doubled(n: nat, d: nat): nat
    requires d > 0
  {
    (n * 2 + d) / (d * 2)
  }

  datatype Percent = Percent(negative: bool, hundredths: nat)

  /** The percentage's own parser: a fraction is padded to four places, and a longer one kept whole. */
  function PaddedUnits(a: Amount): int {
    Signed(a.negative, Number(a.whole + PadEnd(a.fraction, PLACES)))
  }

  /** The places that the parser leaves an amount with. */
  function PlacesKept(a: Amount): nat {
    if |a.fraction| < PLACES then PLACES else |a.fraction|
  }

  lemma PaddedExact(a: Amount)
    ensures PaddedUnits(a) == Exact(a).coef * Pow10(PlacesKept(a) - |a.fraction|)
  {
    if |a.fraction| < PLACES {
      PaddedNumber(a.whole, a.fraction, PLACES);
      SignedTimes(a.negative, Number(a.whole + a.fraction), Pow10(PLACES - |a.fraction|));
    } else {
      assert Pow10(0) == 1;
    }
  }

  /** Consumption in hundredths of a percent, or None when nothing is allocated. */
  function Consumption(granted: string, available: string): Option<Percent> {
    match (Match(granted), Match(available))
    case (Some(x), Some(y)) => ConsumedPart(PaddedUnits(x), PaddedUnits(y))
    case _ => None
  }

  function ConsumedPart(total: int, rest: int): Option<Percent> {
    if total == 0 then None else
      var consumed := (total - rest) * 10000;
      Some(Percent((consumed < 0) != (total < 0), Doubled(Magnitude(consumed), Magnitude(total))))
  }

  /** Doubling before dividing rounds half up as well. */
  lemma DoubledNearest(n: nat, d: nat)
    requires d > 0
    ensures Nearest(n, d, Doubled(n, d))
  {
    var q := Doubled(n, d);
    DivisionBounds(n * 2 + d, d * 2);
    Halves(q, d);
    assert q * (d * 2) == 2 * (q * d);
  }

  /** The percentage is the consumed part of the allocation as parsed, rounded half up. */
  lemma ConsumptionRounds(granted: string, available: string)
    requires Consumption(granted, available).Some?
    ensures var total, rest := PaddedUnits(Match(granted).value), PaddedUnits(Match(available).value);
            var p := Consumption(granted, available).value;
            total != 0 &&
            IsHalfUp(if total < 0 then (rest - total) * 10000 else (total - rest) * 10000,
                     Magnitude(total), Signed(p.negative, p.hundredths))
  {
    PartRounds(PaddedUnits(Match(granted).value), PaddedUnits(Match(available).value));
  }

  lemma PartRounds(total: int, rest: int)
    requires total != 0
    ensures var p := ConsumedPart(total, rest).value;
            IsHalfUp(if total < 0 then (rest - total) * 10000 else (total - rest) * 10000,
                     Magnitude(total), Signed(p.negative, p.hundredths))
  {
    var p := ConsumedPart(total, rest).value;
    var n := Magnitude((total - rest) * 10000);
    DoubledNearest(n, Magnitude(total));
    SignedHalfUp(p.negative, n, Magnitude(total), p.hundredths);
  }

  /** Are the parsed units in the proportion of the exact amounts, rest to total as y to x? */
  predicate InProportion(x: Decimal, y: Decimal, total: int, rest: int) {
    rest * (x.coef * Pow10(y.places)) == total * (y.coef * Pow10(x.places))
  }

  /** What is rounded is the exact consumption if and only if both texts are left with as many places,
      or nothing is available: a text of more than four places is not scaled to four. */
  lemma ConsumptionExact(x: Amount, y: Amount)
    requires Exact(x).coef != 0
    ensures InProportion(Exact(x), Exact(y), PaddedUnits(x), PaddedUnits(y)) <==>
              PlacesKept(x) == PlacesKept(y) || Exact(y).coef == 0
  {
    PaddedExact(x);
    PaddedExact(y);
    ScalesInProportion(Exact(x), Exact(y), PlacesKept(x), PlacesKept(y));
  }

  lemma ScalesInProportion(x: Decimal, y: Decimal, m: nat, n: nat)
    requires x.coef != 0 && x.places <= m && y.places <= n
    ensures InProportion(x, y, x.coef * Pow10(m - x.places), y.coef * Pow10(n - y.places)) <==>
              m == n || y.coef == 0
  {
    Regroup(y.coef, x.coef, n, y.places);
    Regroup(x.coef, y.coef, m, x.places);
    Commute(x.coef, y.coef);
    SameScale(x.coef * y.coef, m, n);
  }

  lemma Regroup(a: int, b: int, n: nat, places: nat)
    requires places <= n
    ensures a * Pow10(n - places) * (b * Pow10(places)) == a * b * Pow10(n)
  {
    Exchange(a, Pow10(n - places), b, Pow10(places));
    Pow10Add(n - places, places);
  }

  lemma Commute(a: int, b: int)
    ensures a * b == b * a
    ensures a != 0 ==> (a * b == 0 <==> b == 0)
  {
  }

  lemma SameScale(product: int, m: nat, n: nat)
    ensures product * Pow10(m) == product * Pow10(n) <==> m == n || product == 0
  {
    if product != 0 {
      OneFactor(product, Pow10(m), Pow10(n));
      Pow10Injective(m, n);
    }
  }

  lemma OneFactor(k: int, a: int, b: int)
    requires k != 0
    ensures k * a == k * b <==> a == b
  {
    Commute(k, a - b);
    assert k * (a - b) == k * a - k * b;
  }

  lemma Pow10Injective(m: nat, n: nat)
    ensures Pow10(m) == Pow10(n) <==> m == n
  {
    var low, high := if m < n then m else n, if m < n then n else m;
    if low < high { Pow10Grows(low + 1, high); }
  }

  const FIVE_PLACES: Amount := Amount(false, "1", "00000")
  const ONE_PLACE: Amount := Amount(false, "0", "5")

  lemma ExampleUnits()
    ensures PaddedUnits(FIVE_PLACES) == 100000 && PaddedUnits(ONE_PLACE) == 5000
  {
    OneDigit('1');
    OneDigit('0');
    OneDigit('5');
    assert "1" + "00000" == PadEnd("1", 6);
    NumberPadEnd("1", 6);
    assert Pow10(2) == 100 && Pow10(3) == 1000 && Pow10(5) == 100 * Pow10(3);
    PaddedNumber("0", "5", PLACES);
    NumberConcat("0", "5");
  }

  /** Half of an allocation written with five places shows as 95 percent consumed. */
  lemma LongTextMisleads()
    ensures Consumption(Written(FIVE_PLACES), Written(ONE_PLACE)) == Some(Percent(false, 9500))
  {
    MatchWritten(FIVE_PLACES);
    MatchWritten(ONE_PLACE);
    ExampleUnits();
  }
}
