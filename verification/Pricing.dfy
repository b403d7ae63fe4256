/** Half-even net-line pricing, tiers and order totals of crates/domain/src/pricing.rs. */
module Pricing {
  import opened Amount
  import opened Arithmetic
  import opened Digits
  import opened Monetary
  import opened Results

  const MAX_PRICED_LINES: nat := 32
  const MAX_TIERS: nat := 8

  type DiscountBps = n: nat | n <= 10_000

  datatype PricingError =
    | InvalidDiscount
    | TooManyTiers
    | InvalidTierOrder
    | InvalidLineCount
    | InvalidMeasurementRange
    | MeasurementUnitMismatch
    | MeasurementOutOfRange
    | CapExceeded
    | ArithmeticOutOfRange
    | MoneyFailure(error: MoneyError)

  // ----- rounding half to even

  function Abs(x: int): nat {
    if x < 0 then -x else x
  }

  /** `q` is a nearest integer to num / den, and the even one when two are nearest. */
  predicate IsHalfEven(num: int, den: int, q: int)
    requires den > 0
  {
    var distance := Abs(num - q * den);
    2 * distance <= den && (2 * distance == den ==> q % 2 == 0)
  }

  predicate RoundsUp(quotient: int, remainder: int, den: int) {
    2 * remainder > den || (2 * remainder == den && quotient % 2 == 1)
  }

  lemma HalfEvenOfDivision(num: int, den: int, quotient: int, remainder: int)
    requires den > 0 && num == quotient * den + remainder && 0 <= remainder < den
    ensures IsHalfEven(num, den, if RoundsUp(quotient, remainder, den) then quotient + 1 else quotient)
  {
    Distribute(quotient, 1, den);
  }

  function RoundHalfEven(num: nat, den: nat): (q: nat)
    requires den > 0
    ensures IsHalfEven(num, den, q)
  {
    DivisionIdentity(num, den);
    HalfEvenOfDivision(num, den, num / den, num % den);
    if RoundsUp(num / den, num % den, den) then num / den + 1 else num / den
  }

  lemma HalfEvenMonotone(m: int, n: int, den: int, p: int, q: int)
    requires den > 0 && m <= n && IsHalfEven(m, den, p) && IsHalfEven(n, den, q)
    ensures p <= q
  {
    if p > q {
      Distribute(p, q, den);
      MulMonotone(1, p - q, den);
      assert p - q == 1 by {
        if p - q >= 2 {
          MulMonotone(2, p - q, den);
        }
      }
    }
  }

  lemma HalfEvenUnique(num: int, den: int, p: int, q: int)
    requires den > 0 && IsHalfEven(num, den, p) && IsHalfEven(num, den, q)
    ensures p == q
  {
    HalfEvenMonotone(num, num, den, p, q);
    HalfEvenMonotone(num, num, den, q, p);
  }

  /** Rounding looks only at the rational, not at how its fraction is written. */
  lemma HalfEvenScale(num: int, den: int, k: int, q: int)
    requires den > 0 && k > 0
    ensures den * k > 0
    ensures IsHalfEven(num * k, den * k, q) <==> IsHalfEven(num, den, q)
  {
    var gap := num - q * den;
    MulPositive(den, k);
    MulAssociative(q, den, k);
    Distribute(num, q * den, k);
    AbsScaled(gap, k);
    MulAssociative(2, Abs(gap), k);
    ScaledOrder(2 * Abs(gap), den, k);
  }

  lemma AbsScaled(x: int, k: int)
    requires k > 0
    ensures Abs(x * k) == Abs(x) * k
  {
    ScaledOrder(x, 0, k);
    Distribute(0, x, k);
  }

  /** Cross-multiplied order of two fractions carries over to their roundings. */
  lemma RoundHalfEvenMonotone(num1: nat, den1: nat, num2: nat, den2: nat)
    requires den1 > 0 && den2 > 0 && num1 * den2 <= num2 * den1
    ensures RoundHalfEven(num1, den1) <= RoundHalfEven(num2, den2)
  {
    var p, q := RoundHalfEven(num1, den1), RoundHalfEven(num2, den2);
    HalfEvenScale(num1, den1, den2, p);
    HalfEvenScale(num2, den2, den1, q);
    assert den1 * den2 == den2 * den1;
    HalfEvenMonotone(num1 * den2, num2 * den1, den1 * den2, p, q);
  }

  // ----- one net line

  /** The checked signed 128-bit evaluation of the source, one operation at a time. */
  function NetLineMinor(rate: MinorAmount, amount: PositiveDecimal, basis: PositiveDecimal, discount: DiscountBps)
    : Result<MinorAmount, PricingError>
  {
    var basisScale, amountScale := CheckedI128(Pow10(basis.scale)), CheckedI128(Pow10(amount.scale));
    var gross := MulI128(Some(rate), Some(amount.coefficient));
    var numerator := MulI128(MulI128(gross, basisScale), Some(10_000 - discount));
    var denominator := MulI128(MulI128(Some(basis.coefficient), amountScale), Some(10_000));
    if numerator.None? || denominator.None? then Err(ArithmeticOutOfRange)
    else RoundedMinor(numerator.value, denominator.value)
  }

  function RoundedMinor(numerator: int, denominator: int): Result<MinorAmount, PricingError> {
    var quotient := DivI128(numerator, denominator);
    var twiceRemainder := MulI128(RemI128(numerator, denominator), Some(2));
    if quotient.None? || twiceRemainder.None? || RemI128(quotient.value, 2).None? then Err(ArithmeticOutOfRange)
    else
      var odd := RemI128(quotient.value, 2).value == 1;
      var increment := twiceRemainder.value > denominator || (twiceRemainder.value == denominator && odd);
      var rounded := AddI128(quotient, if increment then 1 else 0);
      if rounded.None? then Err(ArithmeticOutOfRange)
      else
        var word := CheckedU64(rounded.value);
        if word.None? then Err(MoneyFailure(MinorOutOfRange))
        else if NewMinor(word.value).Err? then Err(MoneyFailure(NewMinor(word.value).error))
        else Ok(word.value)
  }

  /** The exact discounted price is ExactNumerator / ExactDenominator. */
  function ExactNumerator(rate: MinorAmount, amount: PositiveDecimal, discount: DiscountBps): nat {
    rate * Micro(amount) * (10_000 - discount)
  }

  function ExactDenominator(basis: PositiveDecimal): (d: nat)
    ensures d > 0
  {
    MicroPositive(basis);
    Micro(basis) * 10_000
  }

  /** The exact price rounded once, before any bound is applied. */
  function NetPrice(rate: MinorAmount, amount: PositiveDecimal, basis: PositiveDecimal, discount: DiscountBps): nat {
    RoundHalfEven(ExactNumerator(rate, amount, discount), ExactDenominator(basis))
  }

  lemma MulBound(x: int, y: int, a: int, b: int)
    requires 0 <= x <= a && 0 <= y <= b
    ensures 0 <= x * y <= a * b
  {
    MulMonotone(x, a, y);
    MulMonotone(y, b, a);
  }

  /** The comment of the source: numerator below 10^37, denominator below 10^22, both in range. */
  lemma FactorsInRange(rate: MinorAmount, amount: PositiveDecimal, basis: PositiveDecimal, discount: DiscountBps)
    ensures 0 <= rate * amount.coefficient <= I128_MAX
    ensures 0 <= rate * amount.coefficient * Pow10(basis.scale) <= I128_MAX
    ensures 0 <= rate * amount.coefficient * Pow10(basis.scale) * (10_000 - discount)
              < 10_000_000_000_000_000_000_000_000_000_000_000_000
    ensures 0 < basis.coefficient * Pow10(amount.scale) <= I128_MAX
    ensures 0 < basis.coefficient * Pow10(amount.scale) * 10_000 < 10_000_000_000_000_000_000_000
  {
    Pow10Table();
    Pow10Monotone(basis.scale, 6);
    Pow10Monotone(amount.scale, 6);
    MulBound(rate, amount.coefficient, MAX_VALUE, MAX_COEFFICIENT);
    MulBound(rate * amount.coefficient, Pow10(basis.scale), MAX_VALUE * MAX_COEFFICIENT, 1_000_000);
    MulBound(rate * amount.coefficient * Pow10(basis.scale), 10_000 - discount,
             MAX_VALUE * MAX_COEFFICIENT * 1_000_000, 10_000);
    MulBound(basis.coefficient, Pow10(amount.scale), MAX_COEFFICIENT, 1_000_000);
    MulPositive(basis.coefficient, Pow10(amount.scale));
  }

  /** On positive operands well inside the range, the checked steps round half to even. */
  lemma RoundedMinorExact(num: nat, den: nat)
    requires 0 < den && 2 * den <= I128_MAX && num < I128_MAX
    ensures var q := RoundHalfEven(num, den);
            RoundedMinor(num, den) == if q <= MAX_VALUE then Ok(q) else Err(MoneyFailure(MinorOutOfRange))
  {
    DivisionIdentity(num, den);
    MulAtLeast(num / den, den);
    DivRemOfPositive(num, den);
    DivRemOfPositive(num / den, 2);
  }

  lemma NetLineOfFraction(rate: MinorAmount, amount: PositiveDecimal, basis: PositiveDecimal, discount: DiscountBps)
    returns (num: nat, den: nat)
    ensures num == rate * amount.coefficient * Pow10(basis.scale) * (10_000 - discount)
    ensures den == basis.coefficient * Pow10(amount.scale) * 10_000 && den > 0
    ensures var q := RoundHalfEven(num, den);
            NetLineMinor(rate, amount, basis, discount)
            == if q <= MAX_VALUE then Ok(q) else Err(MoneyFailure(MinorOutOfRange))
  {
    FactorsInRange(rate, amount, basis, discount);
    Pow10Table();
    Pow10Monotone(basis.scale, 6);
    Pow10Monotone(amount.scale, 6);
    num := rate * amount.coefficient * Pow10(basis.scale) * (10_000 - discount);
    den := basis.coefficient * Pow10(amount.scale) * 10_000;
    RoundedMinorExact(num, den);
  }

  lemma RegroupNumerator(r: int, a: int, x: int, f: int, y: int, z: int)
    ensures (r * a * x * f) * (y * z) == (r * (a * y) * f) * (x * z)
  {
  }

  lemma RegroupDenominator(b: int, x: int, y: int, z: int)
    ensures (b * x * 10_000) * (y * z) == (b * z * 10_000) * (x * y)
  {
  }

  lemma SameNumerator(rate: MinorAmount, amount: PositiveDecimal, basis: PositiveDecimal, discount: DiscountBps)
    ensures (rate * amount.coefficient * Pow10(basis.scale) * (10_000 - discount))
            * (Pow10(6 - amount.scale) * Pow10(6 - basis.scale))
         == ExactNumerator(rate, amount, discount) * Pow10(6)
  {
    ScaledProduct(amount.coefficient, 6 - amount.scale);
    Pow10Add(basis.scale, 6 - basis.scale);
    RegroupNumerator(rate, amount.coefficient, Pow10(basis.scale), 10_000 - discount,
                     Pow10(6 - amount.scale), Pow10(6 - basis.scale));
  }

  lemma SameDenominator(amount: PositiveDecimal, basis: PositiveDecimal)
    ensures (basis.coefficient * Pow10(amount.scale) * 10_000) * (Pow10(6 - amount.scale) * Pow10(6 - basis.scale))
         == ExactDenominator(basis) * Pow10(6)
  {
    ScaledProduct(basis.coefficient, 6 - basis.scale);
    Pow10Add(amount.scale, 6 - amount.scale);
    RegroupDenominator(basis.coefficient, Pow10(amount.scale), Pow10(6 - amount.scale), Pow10(6 - basis.scale));
  }

  /** Net-line pricing is total: it returns the half-even rounding of the exact price
      whenever that is in range, and only ever fails with the money bound. */
  lemma NetLineExact(rate: MinorAmount, amount: PositiveDecimal, basis: PositiveDecimal, discount: DiscountBps)
    ensures var q := NetPrice(rate, amount, basis, discount);
            NetLineMinor(rate, amount, basis, discount)
            == if q <= MAX_VALUE then Ok(q) else Err(MoneyFailure(MinorOutOfRange))
  {
    var num, den := NetLineOfFraction(rate, amount, basis, discount);
    var q := RoundHalfEven(num, den);
    var exactNum, exactDen := ExactNumerator(rate, amount, discount), ExactDenominator(basis);
    var up := Pow10(6 - amount.scale) * Pow10(6 - basis.scale);
    MulPositive(Pow10(6 - amount.scale), Pow10(6 - basis.scale));
    SameNumerator(rate, amount, basis, discount);
    SameDenominator(amount, basis);
    HalfEvenScale(num, den, up, q);
    HalfEvenScale(exactNum, exactDen, Pow10(6), q);
    HalfEvenUnique(exactNum, exactDen, q, NetPrice(rate, amount, basis, discount));
  }

  /** Dearer rate, larger amount, smaller basis or smaller discount never lowers the price. */
  lemma NetPriceMonotone(
    rate1: MinorAmount, amount1: PositiveDecimal, basis1: PositiveDecimal, discount1: DiscountBps,
    rate2: MinorAmount, amount2: PositiveDecimal, basis2: PositiveDecimal, discount2: DiscountBps)
    requires rate1 <= rate2 && Leq(amount1, amount2) && Leq(basis2, basis1) && discount2 <= discount1
    ensures NetPrice(rate1, amount1, basis1, discount1) <= NetPrice(rate2, amount2, basis2, discount2)
    ensures NetLineMinor(rate2, amount2, basis2, discount2).Ok? ==>
              && NetLineMinor(rate1, amount1, basis1, discount1).Ok?
              && NetLineMinor(rate1, amount1, basis1, discount1).value
                 <= NetLineMinor(rate2, amount2, basis2, discount2).value
  {
    CmpIsRational(amount1, amount2);
    CmpIsRational(basis2, basis1);
    var n1, n2 := ExactNumerator(rate1, amount1, discount1), ExactNumerator(rate2, amount2, discount2);
    var d1, d2 := ExactDenominator(basis1), ExactDenominator(basis2);
    MulBound(rate1, Micro(amount1), rate2, Micro(amount2));
    MulBound(rate1 * Micro(amount1), 10_000 - discount1, rate2 * Micro(amount2), 10_000 - discount2);
    MulBound(n1, d2, n2, d1);
    RoundHalfEvenMonotone(n1, d1, n2, d2);
    NetLineExact(rate1, amount1, basis1, discount1);
    NetLineExact(rate2, amount2, basis2, discount2);
  }

  // ----- order totals

  function FoldTotal(total: Money, lines: seq<Money>): Result<Money, PricingError>
    decreases |lines|
  {
    if lines == [] then Ok(total)
    else
      var sum := Monetary.CheckedAdd(total, lines[0]);
      if sum.Err? then Err(MoneyFailure(sum.error)) else FoldTotal(sum.value, lines[1..])
  }

  function OrderTotal(lines: seq<Money>, charge: Money): Result<Money, PricingError> {
    if lines == [] || |lines| > MAX_PRICED_LINES then Err(InvalidLineCount) else FoldTotal(charge, lines)
  }

  method CheckedOrderTotal(lines: seq<Money>, charge: Money) returns (r: Result<Money, PricingError>)
    ensures r == OrderTotal(lines, charge)
  {
    if lines == [] || |lines| > MAX_PRICED_LINES {
      return Err(InvalidLineCount);
    }
    var total := charge;
    for i := 0 to |lines|
      invariant FoldTotal(total, lines[i..]) == FoldTotal(charge, lines)
    {
      var sum := Monetary.CheckedAdd(total, lines[i]);
      assert lines[i..][1..] == lines[i + 1..];
      if sum.Err? {
        return Err(MoneyFailure(sum.error));
      }
      total := sum.value;
    }
    return Ok(total);
  }

  function SumMinor(lines: seq<Money>): nat {
    if lines == [] then 0 else lines[0].minor + SumMinor(lines[1..])
  }

  predicate SameCurrency(lines: seq<Money>, currency: Currency) {
    forall i :: 0 <= i < |lines| ==> lines[i].currency == currency
  }

  lemma {:induction false} FoldTotalExact(total: Money, lines: seq<Money>)
    ensures FoldTotal(total, lines).Ok? <==>
              SameCurrency(lines, total.currency) && total.minor + SumMinor(lines) <= MAX_VALUE
    ensures FoldTotal(total, lines).Ok? ==>
              FoldTotal(total, lines).value == Money(total.currency, total.minor + SumMinor(lines))
    decreases |lines|
  {
    if lines != [] {
      var sum := Monetary.CheckedAdd(total, lines[0]);
      if sum.Ok? {
        FoldTotalExact(sum.value, lines[1..]);
        assert SameCurrency(lines, total.currency) <==> SameCurrency(lines[1..], total.currency);
      }
    }
  }

  /** A total exists exactly for one to 32 same-currency lines whose exact sum is in range. */
  lemma OrderTotalExact(lines: seq<Money>, charge: Money)
    ensures OrderTotal(lines, charge).Ok? <==>
              && 1 <= |lines| <= MAX_PRICED_LINES
              && SameCurrency(lines, charge.currency)
              && charge.minor + SumMinor(lines) <= MAX_VALUE
    ensures OrderTotal(lines, charge).Ok? ==>
              OrderTotal(lines, charge).value == Money(charge.currency, charge.minor + SumMinor(lines))
  {
    FoldTotalExact(charge, lines);
  }

  // ----- splitting one amount over several lines

  function SumMicro(amounts: seq<PositiveDecimal>): nat {
    if amounts == [] then 0 else Micro(amounts[0]) + SumMicro(amounts[1..])
  }

  predicate PricedLines(rate: Money, basis: PositiveDecimal, discount: DiscountBps,
                        amounts: seq<PositiveDecimal>, lines: seq<Money>)
  {
    && |lines| == |amounts|
    && forall i :: 0 <= i < |amounts| ==>
        && lines[i].currency == rate.currency
        && NetLineMinor(rate.minor, amounts[i], basis, discount) == Ok(lines[i].minor)
  }

  /** `lines` rounded units stand for `exact` / `den` with at most half a unit lost per line. */
  predicate WithinHalves(exact: int, units: int, den: int, lines: int) {
    -lines * den <= 2 * (exact - units * den) <= lines * den
  }

  lemma HalvesAdd(exact1: int, units1: int, lines1: int, exact2: int, units2: int, lines2: int, den: int)
    requires WithinHalves(exact1, units1, den, lines1) && WithinHalves(exact2, units2, den, lines2)
    ensures WithinHalves(exact1 + exact2, units1 + units2, den, lines1 + lines2)
    ensures WithinHalves(exact1 - exact2, units1 - units2, den, lines1 + lines2)
  {
    Distribute(units1, units2, den);
    Distribute(lines1, lines2, den);
  }

  lemma HalfEvenWithin(num: int, den: int, q: int)
    requires den > 0 && IsHalfEven(num, den, q)
    ensures WithinHalves(num, q, den, 1)
  {
  }

  lemma {:induction false} SplitError(rate: nat, f: nat, den: nat, amounts: seq<PositiveDecimal>, lines: seq<Money>)
    requires den > 0 && |lines| == |amounts|
    requires forall i :: 0 <= i < |amounts| ==> IsHalfEven(rate * Micro(amounts[i]) * f, den, lines[i].minor)
    ensures WithinHalves(rate * SumMicro(amounts) * f, SumMinor(lines), den, |amounts|)
  {
    if amounts == [] {
      assert rate * 0 * f == 0;
    } else {
      var head, rest := Micro(amounts[0]), SumMicro(amounts[1..]);
      SplitError(rate, f, den, amounts[1..], lines[1..]);
      assert rate * (head + rest) * f == rate * head * f + rate * rest * f by {
        Distribute(head, rest, rate);
        Distribute(rate * head, rate * rest, f);
      }
      HalfEvenWithin(rate * head * f, den, lines[0].minor);
      HalvesAdd(rate * head * f, lines[0].minor, 1, rate * rest * f, SumMinor(lines[1..]), |amounts| - 1, den);
    }
  }

  lemma NetLineIsHalfEven(rate: MinorAmount, amount: PositiveDecimal, basis: PositiveDecimal, discount: DiscountBps,
                          minor: MinorAmount)
    requires NetLineMinor(rate, amount, basis, discount) == Ok(minor)
    ensures IsHalfEven(rate * Micro(amount) * (10_000 - discount), ExactDenominator(basis), minor)
  {
    NetLineExact(rate, amount, basis, discount);
  }

  lemma WithinHalvesGap(exact: int, split: int, single: int, den: int, n: nat)
    requires den > 0 && WithinHalves(exact, split, den, n) && IsHalfEven(exact, den, single)
    ensures 2 * Abs(split - single) <= n + 1
  {
    HalfEvenWithin(exact, den, single);
    HalvesAdd(exact, split, n, exact, single, 1, den);
    var gap := split - single;
    assert 2 * (0 - gap * den) == (-2 * gap) * den;
    ScaledOrder(-2 * gap, n + 1, den);
    ScaledOrder(-(n + 1), -2 * gap, den);
  }

  /** Pricing an amount in n lines and adding the lines up differs from pricing it
      in one line by at most (n + 1) / 2 minor units. */
  lemma {:induction false} SplitBound(rate: Money, basis: PositiveDecimal, discount: DiscountBps,
                   amounts: seq<PositiveDecimal>, lines: seq<Money>, whole: PositiveDecimal)
    requires PricedLines(rate, basis, discount, amounts, lines)
    requires Micro(whole) == SumMicro(amounts)
    requires NetLineMinor(rate.minor, whole, basis, discount).Ok?
    requires OrderTotal(lines, Money(rate.currency, 0)).Ok?
    ensures var split: int := OrderTotal(lines, Money(rate.currency, 0)).value.minor;
            var single: int := NetLineMinor(rate.minor, whole, basis, discount).value;
            2 * Abs(split - single) <= |amounts| + 1
  {
    OrderTotalExact(lines, Money(rate.currency, 0));
    var f, den := 10_000 - discount, ExactDenominator(basis);
    var single := NetLineMinor(rate.minor, whole, basis, discount).value;
    forall i | 0 <= i < |amounts|
      ensures IsHalfEven(rate.minor * Micro(amounts[i]) * f, den, lines[i].minor)
    {
      NetLineIsHalfEven(rate.minor, amounts[i], basis, discount, lines[i].minor);
    }
    SplitError(rate.minor, f, den, amounts, lines);
    NetLineIsHalfEven(rate.minor, whole, basis, discount, single);
    WithinHalvesGap(rate.minor * Micro(whole) * f, SumMinor(lines), single, den, |amounts|);
  }

  // ----- fixed prices and tiers

  datatype PriceTier = PriceTier(from: Decimal, rate: Money)

  datatype PriceParts = PriceParts(rate: Money, basis: PositiveDecimal, discount: DiscountBps, tiers: seq<PriceTier>)

  /** Thresholds strictly increase and every tier uses the base currency. */
  predicate TiersOrdered(currency: Currency, tiers: seq<PriceTier>) {
    && (forall i :: 0 <= i < |tiers| ==> tiers[i].rate.currency == currency)
    && (forall i, j :: 0 <= i < j < |tiers| ==> Micro(tiers[i].from) < Micro(tiers[j].from))
  }

  predicate ValidPrice(p: PriceParts) {
    |p.tiers| <= MAX_TIERS && TiersOrdered(p.rate.currency, p.tiers)
  }

  type FixedPrice = p: PriceParts | ValidPrice(p)
    witness PriceParts(Money("", 0), Parts(1, 0), 0, [])

  /** The first tier that breaks the order decides the error. */
  ghost predicate FirstFault(currency: Currency, tiers: seq<PriceTier>, k: nat, error: PricingError) {
    && k < |tiers|
    && TiersOrdered(currency, tiers[..k])
    && !TiersOrdered(currency, tiers[..k + 1])
    && error == if tiers[k].rate.currency != currency then MoneyFailure(CurrencyMismatch) else InvalidTierOrder
  }

  method NewFixedPrice(rate: Money, basis: PositiveDecimal, discount: DiscountBps, tiers: seq<PriceTier>)
    returns (r: Result<FixedPrice, PricingError>)
    ensures r.Ok? <==> |tiers| <= MAX_TIERS && TiersOrdered(rate.currency, tiers)
    ensures r.Ok? ==> r.value == PriceParts(rate, basis, discount, tiers)
    ensures |tiers| > MAX_TIERS ==> r == Err(TooManyTiers)
    ensures r.Err? && |tiers| <= MAX_TIERS ==> exists k :: FirstFault(rate.currency, tiers, k, r.error)
  {
    if |tiers| > MAX_TIERS {
      return Err(TooManyTiers);
    }
    var previous: Option<Decimal> := None;
    for i := 0 to |tiers|
      invariant TiersOrdered(rate.currency, tiers[..i])
      invariant previous == if i == 0 then None else Some(tiers[i - 1].from)
    {
      var tier := tiers[i];
      assert tiers[..i + 1][i] == tier;
      if tier.rate.currency != rate.currency {
        assert FirstFault(rate.currency, tiers, i, MoneyFailure(CurrencyMismatch));
        return Err(MoneyFailure(CurrencyMismatch));
      }
      if previous.Some? {
        CmpIsRational(tier.from, previous.value);
        assert tiers[..i + 1][i - 1] == tiers[i - 1] == tiers[..i][i - 1];
        if Leq(tier.from, previous.value) {
          assert FirstFault(rate.currency, tiers, i, InvalidTierOrder);
          return Err(InvalidTierOrder);
        }
      }
      assert forall j :: 0 <= j < i ==> tiers[..i + 1][j] == tiers[..i][j];
      previous := Some(tier.from);
    }
    assert tiers[..|tiers|] == tiers;
    return Ok(PriceParts(rate, basis, discount, tiers));
  }

  /** The last tier whose threshold the amount reaches, searched from the end. */
  function SelectTier(tiers: seq<PriceTier>, amount: Decimal): Option<PriceTier> {
    if tiers == [] then None
    else if Leq(tiers[|tiers| - 1].from, amount) then Some(tiers[|tiers| - 1])
    else SelectTier(tiers[..|tiers| - 1], amount)
  }

  /** `t` is a tier the amount reaches, and no reached tier has a greater threshold. */
  ghost predicate GreatestReached(tiers: seq<PriceTier>, amount: Decimal, t: PriceTier) {
    && t in tiers && Micro(t.from) <= Micro(amount)
    && forall u | u in tiers && Micro(u.from) <= Micro(amount) :: Micro(u.from) <= Micro(t.from)
  }

  lemma {:induction false} SelectTierSound(currency: Currency, tiers: seq<PriceTier>, amount: Decimal)
    requires TiersOrdered(currency, tiers)
    ensures SelectTier(tiers, amount).None? ==> forall t | t in tiers :: Micro(amount) < Micro(t.from)
    ensures SelectTier(tiers, amount).Some? ==> GreatestReached(tiers, amount, SelectTier(tiers, amount).value)
  {
    if tiers != [] {
      var init, last := tiers[..|tiers| - 1], tiers[|tiers| - 1];
      CmpIsRational(last.from, amount);
      assert tiers == init + [last];
      assert forall t :: t in tiers <==> t in init || t == last;
      if Leq(last.from, amount) {
        LastIsGreatest(currency, tiers);
      } else {
        SelectTierSound(currency, init, amount);
      }
    }
  }

  lemma LastIsGreatest(currency: Currency, tiers: seq<PriceTier>)
    requires TiersOrdered(currency, tiers) && tiers != []
    ensures forall t | t in tiers :: Micro(t.from) <= Micro(tiers[|tiers| - 1].from)
  {
    forall t | t in tiers
      ensures Micro(t.from) <= Micro(tiers[|tiers| - 1].from)
    {
      var i :| 0 <= i < |tiers| && tiers[i] == t;
    }
  }

  lemma GreatestReachedUnique(currency: Currency, tiers: seq<PriceTier>, amount: Decimal, t: PriceTier, u: PriceTier)
    requires TiersOrdered(currency, tiers)
    requires GreatestReached(tiers, amount, t) && GreatestReached(tiers, amount, u)
    ensures t == u
  {
    var i :| 0 <= i < |tiers| && tiers[i] == t;
    var j :| 0 <= j < |tiers| && tiers[j] == u;
  }

  datatype LinePrice = LinePrice(
    rate: Money,
    basis: PositiveDecimal,
    discount: DiscountBps,
    selectedTierFrom: Option<Decimal>,
    total: Money)

  function Line(price: FixedPrice, amount: PositiveDecimal): Result<LinePrice, PricingError> {
    var selected := SelectTier(price.tiers, amount);
    var rate := if selected.Some? then selected.value.rate else price.rate;
    var minor :- NetLineMinor(rate.minor, amount, price.basis, price.discount);
    Ok(LinePrice(rate, price.basis, price.discount,
                 if selected.Some? then Some(selected.value.from) else None,
                 Money(rate.currency, minor)))
  }

  /** A priced line uses the unique tier with the greatest threshold the amount reaches,
      the base rate exactly when no threshold is reached, and the half-even price at that rate. */
  lemma LineUsesGreatestTier(price: FixedPrice, amount: PositiveDecimal, t: PriceTier)
    requires Line(price, amount).Ok?
    ensures var line := Line(price, amount).value;
            && line.basis == price.basis && line.discount == price.discount
            && line.total.currency == price.rate.currency
            && line.total.minor == NetPrice(line.rate.minor, amount, price.basis, price.discount)
            && (line.selectedTierFrom.None? <==> forall u | u in price.tiers :: Micro(amount) < Micro(u.from))
            && (line.selectedTierFrom.None? ==> line.rate == price.rate)
            && (GreatestReached(price.tiers, amount, t) ==> line.selectedTierFrom == Some(t.from) && line.rate == t.rate)
  {
    var selected := SelectTier(price.tiers, amount);
    SelectTierSound(price.rate.currency, price.tiers, amount);
    if selected.Some? && GreatestReached(price.tiers, amount, t) {
      GreatestReachedUnique(price.rate.currency, price.tiers, amount, t, selected.value);
    }
    var rate := if selected.Some? then selected.value.rate else price.rate;
    NetLineExact(rate.minor, amount, price.basis, price.discount);
  }

  /** Pricing a line fails only when the exact rounded price is over the money bound. */
  lemma LineFailsOnlyOnBound(price: FixedPrice, amount: PositiveDecimal)
    requires Line(price, amount).Err?
    ensures Line(price, amount) == Err(MoneyFailure(MinorOutOfRange))
  {
    var selected := SelectTier(price.tiers, amount);
    var rate := if selected.Some? then selected.value.rate else price.rate;
    NetLineExact(rate.minor, amount, price.basis, price.discount);
  }
}
