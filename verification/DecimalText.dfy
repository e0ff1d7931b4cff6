/**
  Decimal amounts as text: digit strings, the pattern of an amount, and the exact four-place integer
  that an amount stands for.
 */
module DecimalText {
  import opened Wrappers
  import opened Rounding

  // ------------------------------------------------------------------------- digit strings

  predicate IsDigit(c: char) { '0' <= c <= '9' }

  predicate AllDigits(s: string) { forall i :: 0 <= i < |s| ==> IsDigit(s[i]) }

  type Digits = s: string | AllDigits(s)

  function DigitOf(c: char): nat
    requires IsDigit(c)
  {
    (c - '0') as nat
  }

  /** The number a digit string stands for. */
  function Number(s: Digits): nat {
    if s == "" then 0 else 10 * Number(s[..|s| - 1]) + DigitOf(s[|s| - 1])
  }

  /** No superfluous leading zero. */
  predicate Plain(s: Digits) { |s| == 1 || (|s| > 1 && s[0] != '0') }

  /** The shortest digit string of a number. */
  function Text(n: nat): (s: Digits)
    ensures Plain(s) && Number(s) == n
  {
    var last := '0' + (n % 10) as char;
    if n < 10 then [last] else
      var front := Text(n / 10);
      assert (front + [last])[..|front|] == front;
      front + [last]
  }

  function Zeros(n: nat): (s: Digits)
    ensures |s| == n
  {
    seq(n, _ => '0')
  }

  function PadStart(s: Digits, n: nat): (r: Digits)
    ensures |r| == if |s| < n then n else |s|
  {
    if |s| < n then Zeros(n - |s|) + s else s
  }

  function PadEnd(s: Digits, n: nat): (r: Digits)
    ensures |r| == if |s| < n then n else |s|
  {
    if |s| < n then s + Zeros(n - |s|) else s
  }

  /** Digits written after others: a positional number. */
  lemma {:induction false} NumberConcat(a: Digits, b: Digits)
    ensures Number(a + b) == Number(a) * Pow10(|b|) + Number(b)
    decreases |b|
  {
    if b == "" {
      assert a + b == a;
    } else {
      var front := b[..|b| - 1];
      NumberConcat(a, front);
      assert (a + b)[..|a + b| - 1] == a + front;
      assert 10 * (Number(a) * Pow10(|front|)) == Number(a) * (10 * Pow10(|front|));
    }
  }

  lemma {:induction false} NumberZeros(n: nat)
    ensures Number(Zeros(n)) == 0
    decreases n
  {
    if n > 0 {
      assert Zeros(n)[..n - 1] == Zeros(n - 1);
      NumberZeros(n - 1);
    }
  }

  lemma NumberPadStart(s: Digits, n: nat)
    ensures Number(PadStart(s, n)) == Number(s)
  {
    if |s| < n {
      NumberConcat(Zeros(n - |s|), s);
      NumberZeros(n - |s|);
    }
  }

  lemma NumberPadEnd(s: Digits, n: nat)
    requires |s| <= n
    ensures Number(PadEnd(s, n)) == Number(s) * Pow10(n - |s|)
  {
    if |s| < n {
      NumberConcat(s, Zeros(n - |s|));
      NumberZeros(n - |s|);
    }
  }

  lemma {:induction false} NumberBelow(s: Digits)
    ensures Number(s) < Pow10(|s|)
    decreases |s|
  {
    if s != "" { NumberBelow(s[..|s| - 1]); }
  }

  // ------------------------------------------------------------------------- the pattern

  /** The position of the first point, or the length. */
  function PointAt(s: string): (k: nat)
    ensures k <= |s| && (k < |s| ==> s[k] == '.')
    ensures forall i :: 0 <= i < k ==> s[i] != '.'
  {
    if s == "" || s[0] == '.' then 0 else 1 + PointAt(s[1..])
  }

  /** An amount's parts: sign, digits before the point, digits after it if there is a point. */
  datatype Amount = Amount(negative: bool, whole: Digits, fraction: Digits)

  /** Matches digits, and optionally a point and digits. */
  function MatchUnsigned(text: string, negative: bool): Option<Amount> {
    var k := PointAt(text);
    var whole := text[..k];
    var fraction := if k < |text| then text[k + 1..] else "";
    if whole != "" && AllDigits(whole) && AllDigits(fraction) && (k < |text| ==> fraction != "")
    then Some(Amount(negative, whole, fraction)) else None
  }

  /** Matches an optional minus, digits, and optionally a point and digits. */
  function Match(value: string): Option<Amount> {
    if |value| > 0 && value[0] == '-' then MatchUnsigned(value[1..], true)
    else MatchUnsigned(value, false)
  }

  function WrittenUnsigned(a: Amount): string {
    a.whole + if a.fraction == "" then "" else "." + a.fraction
  }

  /** An amount written out. */
  function Written(a: Amount): string {
    (if a.negative then "-" else "") + WrittenUnsigned(a)
  }

  /** The pattern accepts what is written from a sign and digits, and finds them. */
  lemma MatchWritten(a: Amount)
    requires a.whole != ""
    ensures Match(Written(a)) == Some(a)
  {
    var text := WrittenUnsigned(a);
    assert text[0] == a.whole[0] && IsDigit(text[0]);
    MatchUnsignedWritten(a);
    assert a.negative ==> Written(a)[1..] == text;
    assert !a.negative ==> Written(a) == text;
  }

  lemma MatchUnsignedWritten(a: Amount)
    requires a.whole != ""
    ensures MatchUnsigned(WrittenUnsigned(a), a.negative) == Some(a)
  {
    var text := WrittenUnsigned(a);
    PointAfter(a.whole, if a.fraction == "" then "" else "." + a.fraction);
    if a.fraction == "" { assert text == a.whole; } else { assert text[|a.whole| + 1..] == a.fraction; }
    assert text[..|a.whole|] == a.whole;
  }

  lemma {:induction false} PointAfter(whole: Digits, rest: string)
    requires rest == "" || rest[0] == '.'
    ensures PointAt(whole + rest) == |whole|
    decreases |whole|
  {
    if whole == "" {
      assert whole + rest == rest;
    } else {
      assert (whole + rest)[1..] == whole[1..] + rest;
      PointAfter(whole[1..], rest);
    }
  }

  lemma UnsignedMatchWritten(text: string, negative: bool)
    requires MatchUnsigned(text, negative).Some?
    ensures WrittenUnsigned(MatchUnsigned(text, negative).value) == text
  {
    var k := PointAt(text);
    if k < |text| {
      assert text == text[..k] + ("." + text[k + 1..]);
    } else {
      assert text[..k] == text && text + "" == text;
    }
  }

  /** Nothing else matches: an accepted text is what its parts write. */
  lemma WrittenMatch(value: string)
    requires Match(value).Some?
    ensures Match(value).value.whole != "" && Written(Match(value).value) == value
  {
    if value[0] == '-' {
      UnsignedMatchWritten(value[1..], true);
      assert value == "-" + value[1..];
    } else {
      UnsignedMatchWritten(value, false);
      assert "" + value == value;
    }
  }

  function Signed(negative: bool, n: nat): int { if negative then 0 - n else n }

  /** The exact value of an amount. */
  function Exact(a: Amount): Decimal {
    Decimal(Signed(a.negative, Number(a.whole + a.fraction)), |a.fraction|)
  }

  // ------------------------------------------------------------------------- four places

  const PLACES := 4

  /** The amount in units of 10^-4, if it is an amount of at most four places. */
  function Scaled(value: string): Option<int> {
    match Match(value)
    case None => None
    case Some(a) =>
      if |a.fraction| > PLACES then None
      else Some(Signed(a.negative, Number(a.whole + PadEnd(a.fraction, PLACES))))
  }

  /** A number of units of 10^-places, padded and cut before its last digits. */
  function Units(negative: bool, n: nat, places: nat): (a: Amount)
    ensures a.negative == negative && Plain(a.whole) && |a.fraction| == places
    ensures Number(a.whole + a.fraction) == n
  {
    var digits := PadStart(Text(n), places + 1);
    NumberPadStart(Text(n), places + 1);
    var cut := |digits| - places;
    CutDigits(digits, cut);
    Amount(negative, digits[..cut], digits[cut..])
  }

  lemma CutDigits(s: Digits, k: nat)
    requires k <= |s|
    ensures AllDigits(s[..k]) && AllDigits(s[k..]) && s[..k] + s[k..] == s
  {
  }

  /** The four-place text of an integer. */
  function FromScaled(v: int): string { Written(Units(v < 0, Magnitude(v), PLACES)) }

  function Difference(a: string, b: string): Option<string> {
    match (Scaled(a), Scaled(b))
    case (Some(x), Some(y)) => Some(FromScaled(x - y))
    case _ => None
  }

  lemma ScaledAs(value: string, a: Amount)
    requires Match(value) == Some(a) && |a.fraction| <= PLACES
    ensures Scaled(value) == Some(Signed(a.negative, Number(a.whole + a.fraction))
                                  * Pow10(PLACES - |a.fraction|))
  {
    PaddedNumber(a.whole, a.fraction, PLACES);
    SignedTimes(a.negative, Number(a.whole + a.fraction), Pow10(PLACES - |a.fraction|));
  }

  /** Scaling gives the exact value in ten-thousandths. */
  lemma ScaledExact(value: string)
    requires Scaled(value).Some?
    ensures var x := Exact(Match(value).value);
            x.places <= 4 && Scaled(value).value == x.coef * Pow10(4 - x.places)
  {
    ScaledAs(value, Match(value).value);
  }

  lemma PaddedNumber(whole: Digits, fraction: Digits, places: nat)
    requires |fraction| <= places
    ensures Number(whole + PadEnd(fraction, places))
              == Number(whole + fraction) * Pow10(places - |fraction|)
  {
    assert whole + PadEnd(fraction, places) == PadEnd(whole + fraction, |whole| + places);
    NumberPadEnd(whole + fraction, |whole| + places);
  }

  lemma SignedTimes(negative: bool, n: nat, k: nat)
    ensures Signed(negative, n * k) == Signed(negative, n) * k
  {
  }

  /** The texts of amounts: a sign or none, digits, and a point with one to four digits or none. */
  ghost predicate IsAmount(value: string) {
    exists a: Amount :: a.whole != "" && |a.fraction| <= 4 && value == Written(a)
  }

  lemma ScaledAccepts(value: string)
    ensures Scaled(value).Some? <==> IsAmount(value)
  {
    if Scaled(value).Some? {
      WrittenMatch(value);
    }
    if a: Amount :| a.whole != "" && |a.fraction| <= PLACES && value == Written(a) {
      MatchWritten(a);
    }
  }

  /** Text with up to four places scales back to the units it was written from. */
  lemma ScaledUnits(negative: bool, n: nat, places: nat)
    requires places <= PLACES
    ensures Scaled(Written(Units(negative, n, places))) ==
              Some(Signed(negative, n) * Pow10(PLACES - places))
  {
    ScaledWritten(Units(negative, n, places));
  }

  lemma ScaledWritten(a: Amount)
    requires a.whole != "" && |a.fraction| <= PLACES
    ensures Scaled(Written(a)) == Some(Signed(a.negative, Number(a.whole + a.fraction))
                                       * Pow10(PLACES - |a.fraction|))
  {
    MatchWritten(a);
    ScaledAs(Written(a), a);
  }

  /** Writing an integer with four places and scaling it back gives the integer. */
  lemma ScaledUndoesText(v: int)
    ensures Scaled(FromScaled(v)) == Some(v)
  {
    ScaledUnits(v < 0, Magnitude(v), PLACES);
    WholeScale(v);
  }

  lemma WholeScale(v: int)
    ensures Signed(v < 0, Magnitude(v)) * Pow10(PLACES - PLACES) == v
  {
  }

  // ------------------------------------------------------------------------- unique texts

  lemma {:induction false} NumberInjective(s: Digits, t: Digits)
    requires |s| == |t| && Number(s) == Number(t)
    ensures s == t
    decreases |s|
  {
    if s != "" {
      var k := |s| - 1;
      NumberInjective(s[..k], t[..k]);
      assert s == s[..k] + [s[k]] && t == t[..k] + [t[k]];
    }
  }

  lemma {:induction false} Pow10Grows(a: nat, b: nat)
    requires a <= b
    ensures Pow10(a) <= Pow10(b)
    decreases b
  {
    if a < b { Pow10Grows(a, b - 1); }
  }

  lemma LeadingBound(s: Digits)
    requires s != "" && s[0] != '0'
    ensures Pow10(|s| - 1) <= Number(s)
  {
    assert s == s[..1] + s[1..];
    NumberConcat(s[..1], s[1..]);
    assert s[..1][..0] == "" && s[..1][0] == s[0];
    Times(1, Number(s[..1]), Pow10(|s| - 1));
  }

  /** Of two digit strings, the one that is longer and has no leading zero is the larger number. */
  lemma LongerIsLarger(s: Digits, t: Digits)
    requires |s| < |t| && t[0] != '0'
    ensures Number(s) < Number(t)
  {
    NumberBelow(s);
    LeadingBound(t);
    Pow10Grows(|s|, |t| - 1);
  }

  /** There is one way to write a number of units with that many places and no superfluous zero. */
  lemma UnitsUnique(a: Amount)
    requires Plain(a.whole)
    ensures Units(a.negative, Number(a.whole + a.fraction), |a.fraction|) == a
  {
    var b := Units(a.negative, Number(a.whole + a.fraction), |a.fraction|);
    var s, t := a.whole + a.fraction, b.whole + b.fraction;
    assert a.whole[0] == s[0] && b.whole[0] == t[0];
    if |s| < |t| { LongerIsLarger(s, t); }
    if |t| < |s| { LongerIsLarger(t, s); }
    NumberInjective(s, t);
    assert s[..|a.whole|] == a.whole && t[..|b.whole|] == b.whole;
    assert s[|a.whole|..] == a.fraction && t[|b.whole|..] == b.fraction;
  }

  /** Four places, no superfluous zero, no minus sign on zero. */
  predicate Canonical(a: Amount) {
    && |a.fraction| == 4 && Plain(a.whole)
    && (a.negative ==> Number(a.whole + a.fraction) != 0)
  }

  /** Scaling a text and writing it again gives the text back exactly if it is canonical. */
  lemma TextUndoesScaled(value: string)
    requires Scaled(value).Some?
    ensures FromScaled(Scaled(value).value) == value <==> Canonical(Match(value).value)
  {
    var a := Match(value).value;
    var v := Scaled(value).value;
    ScaledAs(value, a);
    if FromScaled(v) == value {
      MatchWritten(Units(v < 0, Magnitude(v), PLACES));
    }
    if Canonical(a) {
      UnitsUnique(a);
      WrittenMatch(value);
      CanonicalValue(a, v);
    }
  }

  lemma CanonicalValue(a: Amount, v: int)
    requires Canonical(a)
    requires v == Signed(a.negative, Number(a.whole + a.fraction)) * Pow10(PLACES - |a.fraction|)
    ensures (v < 0) == a.negative && Magnitude(v) == Number(a.whole + a.fraction)
  {
    assert Pow10(0) == 1;
  }

  /** The text of a difference scales to the difference. */
  lemma DifferenceExact(a: string, b: string)
    ensures Scaled(a).Some? && Scaled(b).Some? <==> Difference(a, b).Some?
    ensures Difference(a, b).Some? ==>
              Scaled(Difference(a, b).value) == Some(Scaled(a).value - Scaled(b).value)
  {
    if Scaled(a).Some? && Scaled(b).Some? {
      ScaledUndoesText(Scaled(a).value - Scaled(b).value);
    }
  }
}
