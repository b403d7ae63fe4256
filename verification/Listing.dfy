/** Sale options and purchase rules of crates/domain/src/listing.rs. */
module Listings {
  import opened Amount
  import opened Arithmetic
  import opened Digits
  import opened Pricing
  import opened Quantities
  import opened Results
  import opened Text
  import opened VariablePrice

  /** Identities: fixed-width bytes, compared as big-endian numbers. */
  type Id = nat

  datatype ListingError =
    | InvalidText
    | InvalidQuantity
    | NotFixedPrice
    | PricingFailure(error: PricingError)

  datatype SaleUnit = Measured(unit: MeasurementUnit) | Package(name: string) {
    predicate Integral() {
      Package? || unit == Each
    }
  }

  datatype Supply = Unknown | Available(amount: Decimal) | Estimated(amount: Decimal)

  datatype Price = Fixed(value: FixedPrice) | QuoteRequired | VariableWeight(weight: WeightParts)

  datatype OptionParts = OptionParts(
    id: Id,
    title: string,
    unit: SaleUnit,
    increment: PositiveDecimal,
    minimum: PositiveDecimal,
    price: Price,
    supply: Supply,
    leadSeconds: nat)

  predicate TextAdmitted(value: string, maximum: nat, allowEmpty: bool) {
    !((!allowEmpty && value == "") || Utf8Len(value) > maximum * 4 || |value| > maximum)
  }

  /** A text is admitted exactly by its number of characters; the byte test is implied. */
  lemma TextAdmittedExactly(value: string, maximum: nat, allowEmpty: bool)
    ensures TextAdmitted(value, maximum, allowEmpty) <==> |value| <= maximum && (allowEmpty || value != "")
  {
    FourBytesEach(value);
  }

  // ----- exact multiples

  function AlignedI128(d: Decimal, scale: nat): Option<int>
    requires d.scale <= scale
  {
    MulI128(Some(d.coefficient), CheckedI128(Pow10(scale - d.scale)))
  }

  predicate ExactMultiple(value: Decimal, increment: Decimal) {
    var scale := Max(value.scale, increment.scale);
    var v, i := AlignedI128(value, scale), AlignedI128(increment, scale);
    v.Some? && i.Some? && RemI128(v.value, i.value) == Some(0)
  }

  lemma {:induction false} ScaledMultiple(x: nat, y: nat, k: nat)
    requires y > 0 && k > 0
    ensures y * k > 0
    ensures (x * k) % (y * k) == 0 <==> x % y == 0
  {
    MulPositive(y, k);
    var q, r := x / y, x % y;
    DivisionIdentity(x, y);
    Distribute(q * y, r, k);
    MulAssociative(q, y, k);
    ScaledOrder(r, y, k);
    DivModUnique(x * k, q, r * k, y * k);
    ScaledOrder(r, 0, k);
  }

  lemma {:induction false} AlignedFits(d: Decimal, scale: nat)
    requires d.scale <= scale <= MAX_SCALE
    ensures AlignedI128(d, scale) == Some(Aligned(d, scale))
  {
    Pow10Table();
    Pow10Monotone(scale - d.scale, MAX_SCALE);
    ScaledProduct(d.coefficient, scale - d.scale);
    assert CheckedI128(Pow10(scale - d.scale)) == Some(Pow10(scale - d.scale));
    assert CheckedI128(Aligned(d, scale)) == Some(Aligned(d, scale));
  }

  /** The aligned remainder test is divisibility of the exact values; no step overflows. */
  lemma {:induction false} ExactMultipleIsDivisibility(value: Decimal, increment: PositiveDecimal)
    ensures Micro(increment) > 0
    ensures ExactMultiple(value, increment) <==> Micro(value) % Micro(increment) == 0
  {
    var scale := Max(value.scale, increment.scale);
    AlignedFits(value, scale);
    AlignedFits(increment, scale);
    MicroPositive(increment);
    var v, i, k := Aligned(value, scale), Aligned(increment, scale), Pow10(MAX_SCALE - scale);
    ScaledProduct(v, MAX_SCALE - scale);
    ScaledProduct(i, MAX_SCALE - scale);
    ScaledOrder(0, i, k);
    DivRemOfPositive(v, i);
    ScaledMultiple(v, i, k);
  }

  // ----- options

  predicate SupplyWhole(supply: Supply) {
    supply.Unknown? || supply.amount.scale == 0
  }

  /** What the constructor establishes about the purchase rules. */
  predicate ValidOption(o: OptionParts) {
    && TextAdmitted(o.title, 120, false)
    && ExactMultiple(o.minimum, o.increment)
    && (o.unit.Integral() ==> o.increment.scale == 0 && o.minimum.scale == 0 && SupplyWhole(o.supply))
  }

  function NewOption(o: OptionParts): (r: Result<OptionParts, ListingError>)
    ensures r.Ok? <==> ValidOption(o)
    ensures r.Ok? ==> r.value == o
    ensures r == Err(InvalidText) <==> !TextAdmitted(o.title, 120, false)
    ensures r.Err? && TextAdmitted(o.title, 120, false) ==> r == Err(InvalidQuantity)
  {
    if !TextAdmitted(o.title, 120, false) then Err(InvalidText)
    else if !ExactMultiple(o.minimum, o.increment) ||
      (o.unit.Integral() &&
       (o.increment.scale != 0 || o.minimum.scale != 0 || (!o.supply.Unknown? && o.supply.amount.scale != 0))) then
      Err(InvalidQuantity)
    else Ok(o)
  }

  predicate ValidateAmount(o: OptionParts, amount: PositiveDecimal) {
    !(Cmp(amount, o.minimum) == Less
      || !ExactMultiple(amount, o.increment)
      || (o.unit.Integral() && amount.scale != 0))
  }

  /** A multiple of a whole increment is whole, so canonical form gives it scale zero. */
  lemma {:induction false} MultipleOfWhole(amount: Decimal, increment: PositiveDecimal)
    requires increment.scale == 0 && ExactMultiple(amount, increment)
    ensures amount.scale == 0
  {
    ExactMultipleIsDivisibility(amount, increment);
    ScaledTable(increment.coefficient);
    var whole := MultipleOfMillion(Micro(amount), increment.coefficient);
    ScaledTable(whole);
    StrippedUnique(amount, Parts(whole, 0));
  }

  lemma {:induction false} MultipleOfMillion(micro: nat, units: nat) returns (whole: nat)
    requires units > 0 && micro % (1_000_000 * units) == 0
    ensures micro == 1_000_000 * whole
  {
    var k := micro / (1_000_000 * units);
    DivisionIdentity(micro, 1_000_000 * units);
    MulAssociative(k, units, 1_000_000);
    whole := k * units;
  }

  /** An option is admitted exactly when its title fits and its minimum is a multiple of its increment,
      with increment and supply whole for whole units; the test of the minimum's scale never decides. */
  lemma {:induction false} OptionAdmittedExactly(o: OptionParts)
    ensures Micro(o.increment) > 0
    ensures NewOption(o).Ok? <==>
              && TextAdmitted(o.title, 120, false)
              && Micro(o.minimum) % Micro(o.increment) == 0
              && (o.unit.Package? || o.unit == Measured(Each) ==>
                    o.increment.scale == 0 && (o.supply.Unknown? || o.supply.amount.scale == 0))
  {
    ExactMultipleIsDivisibility(o.minimum, o.increment);
    if o.increment.scale == 0 && ExactMultiple(o.minimum, o.increment) {
      MultipleOfWhole(o.minimum, o.increment);
    }
  }

  lemma {:induction false} MultiplesFrom(a: nat, inc: nat, min: nat)
    requires inc > 0 && min % inc == 0
    ensures a >= min && a % inc == 0 <==> exists k: nat :: k >= min / inc && a == k * inc
  {
    DivisionIdentity(min, inc);
    DivisionIdentity(a, inc);
    ScaledOrder(min / inc, a / inc, inc);
    forall k: nat | k >= min / inc && a == k * inc
      ensures a >= min && a % inc == 0
    {
      DivModUnique(a, k, 0, inc);
    }
  }

  /** The amounts an option sells are exactly k * increment with k at least minimum / increment;
      the separate whole-number test never decides. */
  lemma {:induction false} ValidateAmountExact(o: OptionParts, amount: PositiveDecimal)
    requires ValidOption(o)
    ensures Micro(o.increment) > 0
    ensures ValidateAmount(o, amount) <==>
              exists k: nat :: k >= Micro(o.minimum) / Micro(o.increment) && Micro(amount) == k * Micro(o.increment)
    ensures (o.unit.Package? || o.unit == Measured(Each)) && ExactMultiple(amount, o.increment) ==> amount.scale == 0
  {
    ExactMultipleIsDivisibility(o.minimum, o.increment);
    ExactMultipleIsDivisibility(amount, o.increment);
    CmpIsRational(amount, o.minimum);
    MultiplesFrom(Micro(amount), Micro(o.increment), Micro(o.minimum));
    if o.unit.Integral() && ExactMultiple(amount, o.increment) {
      MultipleOfWhole(amount, o.increment);
    }
  }

  function FixedLine(o: OptionParts, amount: PositiveDecimal): (r: Result<LinePrice, ListingError>)
    ensures r == Err(InvalidQuantity) <==> !ValidateAmount(o, amount)
    ensures r == Err(NotFixedPrice) <==> ValidateAmount(o, amount) && !o.price.Fixed?
  {
    if !ValidateAmount(o, amount) then Err(InvalidQuantity)
    else if !o.price.Fixed? then Err(NotFixedPrice)
    else
      var line := Line(o.price.value, amount);
      if line.Err? then Err(PricingFailure(line.error)) else Ok(line.value)
  }
}
