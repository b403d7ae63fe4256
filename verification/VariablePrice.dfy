/** Measurement-priced lines under a monetary cap, crates/domain/src/variable_price.rs. */
module VariablePrice {
  import opened Amount
  import opened Monetary
  import opened Pricing
  import opened Quantities
  import opened Results

  datatype WeightParts = WeightParts(
    measurementUnit: MeasurementUnit,
    minimum: PositiveDecimal,
    maximum: PositiveDecimal,
    rate: Money,
    basis: PositiveDecimal,
    maximumTotal: Money)

  function Total(w: WeightParts, amount: PositiveDecimal): Result<Money, PricingError> {
    var minor := NetLineMinor(w.rate.minor, amount, w.basis, 0);
    if minor.Err? then Err(minor.error)
    else if minor.value > w.maximumTotal.minor then Err(CapExceeded)
    else Ok(Money(w.rate.currency, minor.value))
  }

  /** What the constructor establishes. */
  predicate ValidWeight(w: WeightParts) {
    && Leq(w.minimum, w.maximum)
    && NewQuantity(w.minimum, w.measurementUnit).Ok?
    && NewQuantity(w.maximum, w.measurementUnit).Ok?
    && w.rate.currency == w.maximumTotal.currency
    && Total(w, w.minimum).Ok?
  }

  function NewWeight(unit: MeasurementUnit, minimum: PositiveDecimal, maximum: PositiveDecimal,
                     rate: Money, basis: PositiveDecimal, maximumTotal: Money): (r: Result<WeightParts, PricingError>)
    ensures r.Ok? <==> ValidWeight(WeightParts(unit, minimum, maximum, rate, basis, maximumTotal))
    ensures r.Ok? ==> r.value.minimum == minimum && r.value.maximum == maximum
    ensures r.Ok? ==> r.value.measurementUnit == unit && r.value.basis == basis
    ensures r.Ok? ==> r.value.rate == rate && r.value.maximumTotal == maximumTotal
  {
    if !Leq(minimum, maximum) || NewQuantity(minimum, unit).Err? || NewQuantity(maximum, unit).Err? then
      Err(InvalidMeasurementRange)
    else if rate.currency != maximumTotal.currency then Err(MoneyFailure(CurrencyMismatch))
    else
      var value := WeightParts(unit, minimum, maximum, rate, basis, maximumTotal);
      if Total(value, minimum).Err? then Err(Total(value, minimum).error) else Ok(value)
  }

  /** A weight is admitted exactly when its bounds are ordered and whole for counted goods, its
      currencies agree and the exact price of its minimum is within the cap. */
  lemma WeightAdmittedExactly(w: WeightParts)
    ensures NewWeight(w.measurementUnit, w.minimum, w.maximum, w.rate, w.basis, w.maximumTotal).Ok? <==>
              && Micro(w.minimum) <= Micro(w.maximum)
              && (w.measurementUnit == Each ==> w.minimum.scale == 0 && w.maximum.scale == 0)
              && w.rate.currency == w.maximumTotal.currency
              && NetPrice(w.rate.minor, w.minimum, w.basis, 0) <= w.maximumTotal.minor
    ensures var ordered := Micro(w.minimum) <= Micro(w.maximum)
                           && (w.measurementUnit == Each ==> w.minimum.scale == 0 && w.maximum.scale == 0);
            var r := NewWeight(w.measurementUnit, w.minimum, w.maximum, w.rate, w.basis, w.maximumTotal);
            r.Err? ==> r == if !ordered then Err(InvalidMeasurementRange)
                            else if w.rate.currency != w.maximumTotal.currency then Err(MoneyFailure(CurrencyMismatch))
                            else if NetPrice(w.rate.minor, w.minimum, w.basis, 0) > MAX_VALUE then
                              Err(MoneyFailure(MinorOutOfRange))
                            else Err(CapExceeded)
  {
    CmpIsRational(w.minimum, w.maximum);
    NetLineExact(w.rate.minor, w.minimum, w.basis, 0);
  }

  function TotalAt(w: WeightParts, measurement: Quantity): Result<Money, PricingError> {
    if measurement.unit != w.measurementUnit then Err(MeasurementUnitMismatch)
    else if Cmp(measurement.amount, w.minimum) == Less || Cmp(measurement.amount, w.maximum) == Greater then
      Err(MeasurementOutOfRange)
    else
      var amount := NewPositive(measurement.amount);
      if amount.Err? then Err(MeasurementOutOfRange) else Total(w, amount.value)
  }

  /** A measurement is priced exactly when it is in the unit, in the range and under the cap;
      the price is then the half-even exact price in the rate's currency. */
  lemma TotalAtExact(w: WeightParts, m: Quantity)
    requires ValidWeight(w)
    ensures var inRange := m.unit == w.measurementUnit && Micro(w.minimum) <= Micro(m.amount) <= Micro(w.maximum);
            && (inRange ==> m.amount.coefficient > 0)
            && (TotalAt(w, m).Ok? <==>
                  inRange && NetPrice(w.rate.minor, m.amount, w.basis, 0) <= w.maximumTotal.minor)
            && (TotalAt(w, m).Ok? ==>
                  TotalAt(w, m).value == Money(w.maximumTotal.currency, NetPrice(w.rate.minor, m.amount, w.basis, 0)))
            && (TotalAt(w, m).Err? ==>
                  TotalAt(w, m) == if m.unit != w.measurementUnit then Err(MeasurementUnitMismatch)
                                   else if !inRange then Err(MeasurementOutOfRange)
                                   else if NetPrice(w.rate.minor, m.amount, w.basis, 0) > MAX_VALUE then
                                     Err(MoneyFailure(MinorOutOfRange))
                                   else Err(CapExceeded))
  {
    CmpIsRational(m.amount, w.minimum);
    CmpIsRational(m.amount, w.maximum);
    MicroPositive(w.minimum);
    MicroPositive(m.amount);
    if m.amount.coefficient > 0 {
      NetLineExact(w.rate.minor, m.amount, w.basis, 0);
    }
  }

  /** Admissible measurements are downward closed in the range and priced monotonically;
      the minimum is always admissible, and no total exceeds the cap. */
  lemma AdmissibleDownwardClosed(w: WeightParts, smaller: Quantity, larger: Quantity)
    requires ValidWeight(w)
    requires smaller.unit == w.measurementUnit
    requires Micro(w.minimum) <= Micro(smaller.amount) <= Micro(larger.amount)
    requires TotalAt(w, larger).Ok?
    ensures TotalAt(w, smaller).Ok?
    ensures TotalAt(w, smaller).value.minor <= TotalAt(w, larger).value.minor <= w.maximumTotal.minor
    ensures TotalAt(w, QuantityParts(w.minimum, w.measurementUnit)).Ok?
  {
    TotalAtExact(w, smaller);
    TotalAtExact(w, larger);
    CmpIsRational(smaller.amount, larger.amount);
    CmpIsRational(w.basis, w.basis);
    MicroPositive(w.minimum);
    MicroPositive(smaller.amount);
    MicroPositive(larger.amount);
    NetPriceMonotone(w.rate.minor, smaller.amount, w.basis, 0, w.rate.minor, larger.amount, w.basis, 0);
    MinimumAdmissible(w);
  }

  lemma MinimumAdmissible(w: WeightParts)
    requires ValidWeight(w)
    ensures TotalAt(w, QuantityParts(w.minimum, w.measurementUnit)) == Total(w, w.minimum)
  {
    CmpIsRational(w.minimum, w.minimum);
    CmpIsRational(w.minimum, w.maximum);
  }
}
