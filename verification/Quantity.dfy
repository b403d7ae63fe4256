/** Declared physical quantities and exact unit conversion of crates/domain/src/quantity.rs. */
module Quantities {
  import opened Amount
  import opened Digits
  import opened Results

  datatype MeasurementUnit = Gram | Kilogram | Millilitre | Litre | Each

  datatype QuantityParts = QuantityParts(amount: Decimal, unit: MeasurementUnit)

  type Quantity = q: QuantityParts | q.unit == Each ==> q.amount.scale == 0
    witness QuantityParts(Parts(0, 0), Gram)

  datatype QuantityError =
    | FractionalCount
    | UnitMismatch
    | IncompatibleDimension
    | PrecisionLoss
    | ArithmeticOutOfRange
    | AmountFailure(error: AmountError)

  function NewQuantity(amount: Decimal, unit: MeasurementUnit): Result<Quantity, QuantityError> {
    if unit == Each && amount.scale != 0 then Err(FractionalCount) else Ok(QuantityParts(amount, unit))
  }

  function Admit(amount: Result<Decimal, AmountError>, unit: MeasurementUnit): Result<Quantity, QuantityError> {
    if amount.Err? then Err(AmountFailure(amount.error)) else NewQuantity(amount.value, unit)
  }

  function CheckedAdd(a: Quantity, b: Quantity): Result<Quantity, QuantityError> {
    if a.unit != b.unit then Err(UnitMismatch) else Admit(Amount.CheckedAdd(a.amount, b.amount), a.unit)
  }

  function CheckedSub(a: Quantity, b: Quantity): Result<Quantity, QuantityError> {
    if a.unit != b.unit then Err(UnitMismatch) else Admit(Amount.CheckedSub(a.amount, b.amount), a.unit)
  }

  /** Only a count can be fractional, and only quantities of one unit can be combined. */
  lemma QuantityErrors(a: Quantity, b: Quantity, amount: Decimal, unit: MeasurementUnit)
    ensures NewQuantity(amount, unit) == Err(FractionalCount) <==> unit == Each && amount.scale > 0
    ensures CheckedAdd(a, b) == Err(UnitMismatch) <==> a.unit != b.unit
    ensures CheckedSub(a, b) == Err(UnitMismatch) <==> a.unit != b.unit
  {
  }

  // ----- conversion

  /** Whether converting multiplies by 1000 (`Some(true)`), divides by it, or is not supported. */
  function Direction(from: MeasurementUnit, target: MeasurementUnit): Option<bool> {
    match (from, target)
    case (Kilogram, Gram) => Some(true)
    case (Litre, Millilitre) => Some(true)
    case (Gram, Kilogram) => Some(false)
    case (Millilitre, Litre) => Some(false)
    case _ => None
  }

  /** Coefficient and scale after moving the decimal point by three places. */
  function Shifted(amount: Decimal, multiply: bool): Parts {
    if multiply && amount.scale < 3 then Parts(Scaled(amount.coefficient, 3 - amount.scale), 0)
    else if multiply then Parts(amount.coefficient, amount.scale - 3)
    else Parts(amount.coefficient, amount.scale + 3)
  }

  /** The closing tests on the stripped coefficient and scale. */
  function Settle(stripped: Parts, target: MeasurementUnit): Result<Quantity, QuantityError> {
    if stripped.scale > MAX_SCALE then Err(PrecisionLoss)
    else if CheckedU64(stripped.coefficient).None? then Err(ArithmeticOutOfRange)
    else Admit(FromParts(stripped.coefficient, stripped.scale), target)
  }

  function Convert(q: Quantity, target: MeasurementUnit): Result<Quantity, QuantityError> {
    if q.unit == target then Ok(q)
    else
      var direction := Direction(q.unit, target);
      if direction.None? then Err(IncompatibleDimension)
      else
        var shifted := Shifted(q.amount, direction.value);
        if CheckedI128(shifted.coefficient).None? then Err(ArithmeticOutOfRange)
        else Settle(Normalized(shifted.coefficient, shifted.scale), target)
  }

  lemma {:induction false} ConvertSettles(q: Quantity, target: MeasurementUnit, shifted: Parts)
    requires Direction(q.unit, target).Some? && shifted == Shifted(q.amount, Direction(q.unit, target).value)
    ensures Convert(q, target) == Settle(Normalized(shifted.coefficient, shifted.scale), target)
  {
    ShiftFits(q.amount);
  }

  lemma {:induction false} ShiftedProduct(amount: Decimal)
    requires amount.scale < 3
    ensures MulI128(Some(amount.coefficient), CheckedI128(Pow10(3 - amount.scale)))
         == CheckedI128(Scaled(amount.coefficient, 3 - amount.scale))
  {
    ShiftFits(amount);
    ScaledProduct(amount.coefficient, 3 - amount.scale);
  }

  /** The loop that drops fractional zeros; a zero coefficient loses all of its scale. */
  method DropZeros(coefficient: nat, scale: nat) returns (c: nat, s: nat)
    ensures Parts(c, s) == Normalized(coefficient, scale)
  {
    c, s := coefficient, scale;
    while s > 0 && c % 10 == 0
      invariant Normalized(c, s) == Normalized(coefficient, scale)
    {
      c := c / 10;
      s := s - 1;
    }
  }

  method ConvertQuantity(q: Quantity, target: MeasurementUnit) returns (r: Result<Quantity, QuantityError>)
    ensures r == Convert(q, target)
  {
    if q.unit == target {
      return Ok(q);
    }
    var direction := Direction(q.unit, target);
    if direction.None? {
      return Err(IncompatibleDimension);
    }
    var coefficient: nat, scale: nat := q.amount.coefficient, q.amount.scale;
    if direction.value && scale < 3 {
      var product := MulI128(Some(coefficient), CheckedI128(Pow10(3 - scale)));
      ShiftedProduct(q.amount);
      if product.None? {
        return Err(ArithmeticOutOfRange);
      }
      coefficient := product.value;
      scale := 0;
    } else if direction.value {
      scale := scale - 3;
    } else {
      scale := scale + 3;
    }
    ConvertSettles(q, target, Parts(coefficient, scale));
    coefficient, scale := DropZeros(coefficient, scale);
    if scale > MAX_SCALE {
      return Err(PrecisionLoss);
    }
    if CheckedU64(coefficient).None? {
      return Err(ArithmeticOutOfRange);
    }
    return Admit(FromParts(coefficient, scale), target);
  }

  lemma {:induction false} ShiftFits(amount: Decimal)
    ensures Pow10(3 - (if amount.scale < 3 then amount.scale else 3)) <= 1_000
    ensures Shifted(amount, true).coefficient <= MAX_COEFFICIENT * 1_000
  {
    Pow10Table();
    if amount.scale < 3 {
      Pow10Monotone(3 - amount.scale, 3);
      ScaledGrows(amount.coefficient, 3 - amount.scale, 3);
      ScaledTable(amount.coefficient);
    }
  }

  // ----- what conversion means

  datatype Dimension = Mass | Volume | Count

  function DimensionOf(unit: MeasurementUnit): Dimension {
    match unit
    case Gram => Mass
    case Kilogram => Mass
    case Millilitre => Volume
    case Litre => Volume
    case Each => Count
  }

  predicate Thousandfold(unit: MeasurementUnit) {
    unit == Kilogram || unit == Litre
  }

  /** Millionths of the unit as millionths of a gram, of a millilitre, or of one piece. */
  function InBase(micro: nat, unit: MeasurementUnit): nat {
    if Thousandfold(unit) then 1_000 * micro else micro
  }

  function PhysicalMicro(q: Quantity): nat {
    InBase(Micro(q.amount), q.unit)
  }

  /** Some quantity in the unit has exactly this physical value. */
  ghost predicate Expressible(physical: nat, unit: MeasurementUnit) {
    exists r: Quantity :: r.unit == unit && PhysicalMicro(r) == physical
  }

  lemma {:induction false} ShiftUpValue(amount: Decimal)
    ensures var p := Shifted(amount, true);
            p.scale <= 3 && Scaled(p.coefficient, MAX_SCALE - p.scale) == Micro(amount) * 1_000
  {
    ScaledByThousand(amount.coefficient, MAX_SCALE - amount.scale);
    if amount.scale < 3 {
      ScaledTwice(amount.coefficient, 3 - amount.scale, MAX_SCALE);
    }
  }

  lemma {:induction false} ShiftDownValue(amount: Decimal, p: Parts)
    requires p == Normalized(amount.coefficient, amount.scale + 3)
    ensures Scaled(p.coefficient, 9 - p.scale) == Micro(amount)
    ensures p.scale <= MAX_SCALE ==> Micro(p) * 1_000 == Micro(amount)
  {
    ScaledTwice(p.coefficient, amount.scale + 3 - p.scale, MAX_SCALE - amount.scale);
    if p.scale <= MAX_SCALE {
      ScaledByThousand(p.coefficient, MAX_SCALE - p.scale);
    }
  }

  lemma {:induction false} ConvertUpResult(q: Quantity, target: MeasurementUnit, p: Parts)
    requires Direction(q.unit, target) == Some(true) && p == Shifted(q.amount, true)
    ensures Convert(q, target) == Admit(FromResult(p.coefficient, p.scale), target)
  {
    ShiftFits(q.amount);
  }

  /** A larger unit's quantity can be written in the smaller one exactly when the amount times 1000 can. */
  lemma {:induction false} UpExpressible(q: Quantity, target: MeasurementUnit)
    requires Direction(q.unit, target) == Some(true)
    ensures Expressible(PhysicalMicro(q), target) <==> Representable(Micro(q.amount) * 1_000)
  {
    if Expressible(PhysicalMicro(q), target) {
      var r: Quantity :| r.unit == target && PhysicalMicro(r) == PhysicalMicro(q);
      assert Micro(r.amount) == Micro(q.amount) * 1_000;
    }
    if Representable(Micro(q.amount) * 1_000) {
      var d: Decimal :| Micro(d) == Micro(q.amount) * 1_000;
      var r: Quantity := QuantityParts(d, target);
      assert r.unit == target && PhysicalMicro(r) == PhysicalMicro(q);
    }
  }

  lemma {:induction false} ConvertUpExact(q: Quantity, target: MeasurementUnit)
    requires Direction(q.unit, target) == Some(true)
    ensures Convert(q, target).Ok? <==> Expressible(PhysicalMicro(q), target)
    ensures Convert(q, target).Ok? ==> Convert(q, target).value.unit == target
    ensures Convert(q, target).Ok? ==> PhysicalMicro(Convert(q, target).value) == PhysicalMicro(q)
    ensures Convert(q, target).Err? ==> Convert(q, target) == Err(AmountFailure(CoefficientOutOfRange))
  {
    var p := Shifted(q.amount, true);
    ShiftUpValue(q.amount);
    FromResultExact(p.coefficient, p.scale, Micro(q.amount) * 1_000);
    ConvertUpResult(q, target, p);
    UpExpressible(q, target);
  }

  /** A value needing more than six fractional digits in the larger unit has no writing there. */
  lemma {:induction false} TooFineForLargerUnit(amount: Decimal, p: Parts, r: Decimal)
    requires p == Normalized(amount.coefficient, amount.scale + 3) && p.scale > MAX_SCALE
    ensures Micro(r) * 1_000 != Micro(amount)
  {
    ShiftDownValue(amount, p);
    if Micro(r) * 1_000 == Micro(amount) {
      ScaledByThousand(r.coefficient, MAX_SCALE - r.scale);
      CoarserIsMultiple(r, p, 9);
    }
  }

  lemma {:induction false} SettleFits(p: Decimal, target: MeasurementUnit)
    requires target != Each
    ensures Settle(p, target) == Ok(QuantityParts(p, target))
  {
    FromPartsOfDecimal(p);
  }

  lemma {:induction false} ConvertDownFits(q: Quantity, target: MeasurementUnit, p: Parts)
    requires Direction(q.unit, target) == Some(false)
    requires p == Normalized(q.amount.coefficient, q.amount.scale + 3) && p.scale <= MAX_SCALE
    ensures Convert(q, target).Ok? && Convert(q, target).value.unit == target
    ensures PhysicalMicro(Convert(q, target).value) == PhysicalMicro(q)
  {
    NormalizedShrinks(q.amount.coefficient, q.amount.scale + 3);
    ShiftDownValue(q.amount, p);
    ConvertSettles(q, target, Shifted(q.amount, false));
    SettleFits(p, target);
  }

  lemma {:induction false} ConvertDownExact(q: Quantity, target: MeasurementUnit)
    requires Direction(q.unit, target) == Some(false)
    ensures Convert(q, target).Ok? <==> Expressible(PhysicalMicro(q), target)
    ensures Convert(q, target).Ok? ==> Convert(q, target).value.unit == target
    ensures Convert(q, target).Ok? ==> PhysicalMicro(Convert(q, target).value) == PhysicalMicro(q)
    ensures Convert(q, target).Err? ==> Convert(q, target) == Err(PrecisionLoss)
  {
    var p := Normalized(q.amount.coefficient, q.amount.scale + 3);
    if p.scale <= MAX_SCALE {
      ConvertDownFits(q, target, p);
    } else if Expressible(PhysicalMicro(q), target) {
      var r: Quantity :| r.unit == target && PhysicalMicro(r) == PhysicalMicro(q);
      TooFineForLargerUnit(q.amount, p, r.amount);
    }
  }

  /** Conversion succeeds exactly when the target unit can express the same physical value
      exactly, and then it preserves that value; it never reports a machine overflow. */
  lemma {:induction false} ConvertExact(q: Quantity, target: MeasurementUnit)
    ensures Convert(q, target) == Err(IncompatibleDimension) <==> DimensionOf(q.unit) != DimensionOf(target)
    ensures DimensionOf(q.unit) == DimensionOf(target) ==>
              (Convert(q, target).Ok? <==> Expressible(PhysicalMicro(q), target))
    ensures Convert(q, target).Ok? ==>
              && Convert(q, target).value.unit == target
              && PhysicalMicro(Convert(q, target).value) == PhysicalMicro(q)
    ensures Convert(q, target).Err? && DimensionOf(q.unit) == DimensionOf(target) ==>
              Convert(q, target)
              == Err(if Thousandfold(target) then PrecisionLoss else AmountFailure(CoefficientOutOfRange))
  {
    var direction := Direction(q.unit, target);
    if q.unit == target {
      assert Expressible(PhysicalMicro(q), target);
    } else if direction == Some(true) {
      ConvertUpExact(q, target);
    } else if direction == Some(false) {
      ConvertDownExact(q, target);
    }
  }

  lemma {:induction false} SamePhysicalSameQuantity(a: Quantity, b: Quantity)
    requires a.unit == b.unit && PhysicalMicro(a) == PhysicalMicro(b)
    ensures a == b
  {
    StrippedUnique(a.amount, b.amount);
  }

  /** Converting there and back is the identity. */
  lemma {:induction false} ConvertBack(q: Quantity, target: MeasurementUnit)
    requires Convert(q, target).Ok?
    ensures Convert(Convert(q, target).value, q.unit) == Ok(q)
  {
    var there := Convert(q, target).value;
    ConvertExact(q, target);
    ConvertExact(there, q.unit);
    assert q.unit == q.unit && PhysicalMicro(q) == PhysicalMicro(there);
    assert Expressible(PhysicalMicro(there), q.unit);
    SamePhysicalSameQuantity(Convert(there, q.unit).value, q);
  }

  lemma {:induction false} AddPhysical(a: Quantity, b: Quantity)
    requires a.unit == b.unit
    ensures CheckedAdd(a, b).Ok? ==> PhysicalMicro(CheckedAdd(a, b).value) == PhysicalMicro(a) + PhysicalMicro(b)
    ensures CheckedAdd(a, b).Ok? ==> CheckedAdd(a, b).value.unit == a.unit
    ensures CheckedAdd(a, b).Ok? <==> Expressible(PhysicalMicro(a) + PhysicalMicro(b), a.unit)
    ensures CheckedAdd(a, b).Err? ==> CheckedAdd(a, b) == Err(AmountFailure(CoefficientOutOfRange))
  {
    CheckedAddExact(a.amount, b.amount);
    ExpressibleSum(a, b);
    if Representable(Micro(a.amount) + Micro(b.amount)) {
      var sum := Amount.CheckedAdd(a.amount, b.amount).value;
      if a.unit == Each {
        WholeSum(a.amount, b.amount, sum);
      }
    }
  }

  lemma {:induction false} ExpressibleSum(a: Quantity, b: Quantity)
    requires a.unit == b.unit
    ensures Expressible(PhysicalMicro(a) + PhysicalMicro(b), a.unit) ==> Representable(Micro(a.amount) + Micro(b.amount))
  {
    if Expressible(PhysicalMicro(a) + PhysicalMicro(b), a.unit) {
      var r: Quantity :| r.unit == a.unit && PhysicalMicro(r) == PhysicalMicro(a) + PhysicalMicro(b);
      assert Micro(r.amount) == Micro(a.amount) + Micro(b.amount);
    }
  }

  lemma {:induction false} WholeSum(a: Decimal, b: Decimal, sum: Decimal)
    requires a.scale == 0 && b.scale == 0 && Micro(sum) == Micro(a) + Micro(b)
    ensures sum.scale == 0
  {
    var whole := Parts(a.coefficient + b.coefficient, 0);
    ScaledAdd(a.coefficient, b.coefficient, MAX_SCALE);
    StrippedUnique(whole, sum);
  }

  /** Quantities of one unit subtract exactly when the difference of their physical values is expressible. */
  lemma {:induction false} SubPhysical(a: Quantity, b: Quantity)
    requires a.unit == b.unit
    ensures CheckedSub(a, b).Ok? <==>
              PhysicalMicro(a) >= PhysicalMicro(b) && Expressible(PhysicalMicro(a) - PhysicalMicro(b), a.unit)
    ensures CheckedSub(a, b).Ok? ==>
              && CheckedSub(a, b).value.unit == a.unit
              && PhysicalMicro(CheckedSub(a, b).value) == PhysicalMicro(a) - PhysicalMicro(b)
    ensures CheckedSub(a, b) == Err(AmountFailure(NegativeResult)) <==> PhysicalMicro(a) < PhysicalMicro(b)
  {
    CheckedSubExact(a.amount, b.amount);
    if Micro(a.amount) >= Micro(b.amount) {
      ExpressibleDifference(a, b);
      if Representable(Micro(a.amount) - Micro(b.amount)) {
        var rest := Amount.CheckedSub(a.amount, b.amount).value;
        if a.unit == Each {
          WholeDifference(a.amount, b.amount, rest);
        }
      }
    }
  }

  lemma {:induction false} ExpressibleDifference(a: Quantity, b: Quantity)
    requires a.unit == b.unit && PhysicalMicro(a) >= PhysicalMicro(b)
    ensures Expressible(PhysicalMicro(a) - PhysicalMicro(b), a.unit) ==> Representable(Micro(a.amount) - Micro(b.amount))
  {
    if Expressible(PhysicalMicro(a) - PhysicalMicro(b), a.unit) {
      var r: Quantity :| r.unit == a.unit && PhysicalMicro(r) == PhysicalMicro(a) - PhysicalMicro(b);
      assert Micro(r.amount) == Micro(a.amount) - Micro(b.amount);
    }
  }

  lemma {:induction false} WholeDifference(a: Decimal, b: Decimal, rest: Decimal)
    requires a.scale == 0 && b.scale == 0 && Micro(a) >= Micro(b) && Micro(rest) == Micro(a) - Micro(b)
    ensures rest.scale == 0
  {
    ScaledLeq(b.coefficient, a.coefficient, MAX_SCALE);
    ScaledAdd(a.coefficient - b.coefficient, b.coefficient, MAX_SCALE);
    StrippedUnique(Parts(a.coefficient - b.coefficient, 0), rest);
  }

  /** Subtracting what was added gives back the first quantity. */
  lemma {:induction false} SubUndoesAdd(a: Quantity, b: Quantity)
    requires CheckedAdd(a, b).Ok?
    ensures CheckedSub(CheckedAdd(a, b).value, b) == Ok(a)
  {
    AddThenSub(a.amount, b.amount);
  }

  /** Adding then converting agrees with converting then adding, including whether it succeeds. */
  lemma {:induction false} ConvertCommutesWithAdd(a: Quantity, b: Quantity, target: MeasurementUnit)
    requires CheckedAdd(a, b).Ok? && Convert(a, target).Ok? && Convert(b, target).Ok?
    ensures var after := Convert(CheckedAdd(a, b).value, target);
            var before := CheckedAdd(Convert(a, target).value, Convert(b, target).value);
            && (after.Ok? <==> before.Ok?)
            && (after.Ok? ==> after == before)
  {
    var sum, ca, cb := CheckedAdd(a, b).value, Convert(a, target).value, Convert(b, target).value;
    AddPhysical(a, b);
    ConvertExact(a, target);
    ConvertExact(b, target);
    ConvertExact(sum, target);
    AddPhysical(ca, cb);
    if Convert(sum, target).Ok? {
      SamePhysicalSameQuantity(Convert(sum, target).value, CheckedAdd(ca, cb).value);
    }
  }
}
