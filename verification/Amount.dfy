/** The canonical bounded nonnegative decimal of crates/domain/src/amount.rs. */
module Amount {
  import opened Arithmetic
  import opened Digits
  import opened Results
  import opened Text

  const MAX_COEFFICIENT: nat := 999_999_999_999
  const MAX_SCALE: nat := 6
  const MAX_ENCODED_LEN: nat := 19

  /** A coefficient and a number of fractional digits, not yet validated. */
  datatype Parts = Parts(coefficient: nat, scale: nat)

  datatype AmountError =
    | InvalidFormat
    | NonCanonical
    | CoefficientOutOfRange
    | ScaleOutOfRange
    | MustBePositive
    | NegativeResult

  /** No fractional trailing zero is left; in particular zero has scale zero. */
  predicate Stripped(p: Parts) {
    p.scale <= MAX_SCALE && (p.scale > 0 ==> p.coefficient % 10 != 0)
  }

  predicate Canonical(p: Parts) {
    Stripped(p) && p.coefficient <= MAX_COEFFICIENT
  }

  type Decimal = p: Parts | Canonical(p) witness Parts(0, 0)

  type PositiveDecimal = d: Decimal | d.coefficient > 0 witness Parts(1, 0)

  /** The value in millionths; exact, since a scale never exceeds six. */
  function Micro(p: Parts): nat
    requires p.scale <= MAX_SCALE
  {
    Scaled(p.coefficient, MAX_SCALE - p.scale)
  }

  /** Some admitted decimal has exactly this value in millionths. */
  ghost predicate Representable(micro: int) {
    exists d: Decimal :: Micro(d) == micro
  }

  // ----- values and equality

  lemma {:induction false} MicroAtScale(p: Parts, scale: nat)
    requires p.scale <= scale <= MAX_SCALE
    ensures Scaled(Scaled(p.coefficient, scale - p.scale), MAX_SCALE - scale) == Micro(p)
  {
    ScaledTwice(p.coefficient, scale - p.scale, MAX_SCALE - scale);
  }

  lemma {:induction false} OverCommonScale(p: Parts, other: nat)
    requires p.scale <= MAX_SCALE
    ensures Micro(p) * (Pow10(p.scale) * Pow10(other)) == p.coefficient * Pow10(other) * Pow10(MAX_SCALE)
  {
    ScaledProduct(p.coefficient, MAX_SCALE - p.scale);
    Pow10Add(MAX_SCALE - p.scale, p.scale);
    MulRegroup(p.coefficient, Pow10(MAX_SCALE - p.scale), Pow10(p.scale), Pow10(other));
  }

  /** `Micro` orders decimals as the rationals coefficient / 10^scale. */
  lemma {:induction false} MicroIsRationalOrder(a: Parts, b: Parts)
    requires a.scale <= MAX_SCALE && b.scale <= MAX_SCALE
    ensures Micro(a) <= Micro(b) <==> a.coefficient * Pow10(b.scale) <= b.coefficient * Pow10(a.scale)
  {
    var k := Pow10(a.scale) * Pow10(b.scale);
    MulCommutes(Pow10(a.scale), Pow10(b.scale));
    OverCommonScale(a, b.scale);
    OverCommonScale(b, a.scale);
    MulPositive(Pow10(a.scale), Pow10(b.scale));
    ScaledOrder(Micro(a), Micro(b), k);
    ScaledOrder(a.coefficient * Pow10(b.scale), b.coefficient * Pow10(a.scale), Pow10(MAX_SCALE));
  }

  /** Stripped forms are unique: one value, one coefficient and scale. */
  lemma {:induction false} StrippedUnique(a: Parts, b: Parts)
    requires Stripped(a) && Stripped(b) && Micro(a) == Micro(b)
    ensures a == b
  {
    if a.scale < b.scale {
      CoarserIsMultiple(a, b, MAX_SCALE);
    } else if b.scale < a.scale {
      CoarserIsMultiple(b, a, MAX_SCALE);
    } else {
      ScaledLeq(a.coefficient, b.coefficient, MAX_SCALE - a.scale);
    }
  }

  /** Of two writings of one value, the finer one ends in a zero digit. */
  lemma {:induction false} CoarserIsMultiple(a: Parts, b: Parts, base: nat)
    requires a.scale < b.scale <= base
    requires Scaled(a.coefficient, base - a.scale) == Scaled(b.coefficient, base - b.scale)
    ensures b.coefficient % 10 == 0
  {
    var gap := b.scale - a.scale;
    ScaledTwice(a.coefficient, gap, base - b.scale);
    ScaledLeq(Scaled(a.coefficient, gap), b.coefficient, base - b.scale);
    assert b.coefficient == 10 * Scaled(a.coefficient, gap - 1);
  }

  // ----- construction

  /** Removes fractional trailing zeros without changing the value. */
  function Normalized(coefficient: nat, scale: nat): (r: Parts)
    ensures r.scale <= scale && (r.scale > 0 ==> r.coefficient % 10 != 0)
    ensures coefficient == Scaled(r.coefficient, scale - r.scale)
    decreases scale
  {
    if coefficient == 0 then ScaledZero(scale); Parts(0, 0)
    else if scale > 0 && coefficient % 10 == 0 then Normalized(coefficient / 10, scale - 1)
    else Parts(coefficient, scale)
  }

  method Normalize(coefficient: nat, scale: nat) returns (r: Parts)
    ensures r == Normalized(coefficient, scale)
  {
    if coefficient == 0 {
      return Parts(0, 0);
    }
    var c, s := coefficient, scale;
    while s > 0 && c % 10 == 0
      invariant c > 0 && Normalized(c, s) == Normalized(coefficient, scale)
    {
      c := c / 10;
      s := s - 1;
    }
    return Parts(c, s);
  }

  lemma {:induction false} NormalizedValue(coefficient: nat, scale: nat)
    requires scale <= MAX_SCALE
    ensures Stripped(Normalized(coefficient, scale))
    ensures Micro(Normalized(coefficient, scale)) == Scaled(coefficient, MAX_SCALE - scale)
  {
    MicroAtScale(Normalized(coefficient, scale), scale);
  }

  function FromParts(coefficient: nat, scale: nat): (r: Result<Decimal, AmountError>)
    ensures r.Ok? <==> scale <= MAX_SCALE && coefficient <= MAX_COEFFICIENT
    ensures r.Ok? ==> Micro(r.value) == Scaled(coefficient, MAX_SCALE - scale)
    ensures scale > MAX_SCALE ==> r == Err(ScaleOutOfRange)
    ensures scale <= MAX_SCALE && r.Err? ==> r == Err(CoefficientOutOfRange)
  {
    if scale > MAX_SCALE then Err(ScaleOutOfRange)
    else if coefficient > MAX_COEFFICIENT then Err(CoefficientOutOfRange)
    else
      NormalizedValue(coefficient, scale);
      NormalizedShrinks(coefficient, scale);
      Ok(Normalized(coefficient, scale))
  }

  lemma {:induction false} NormalizedShrinks(coefficient: nat, scale: nat)
    ensures Normalized(coefficient, scale).coefficient <= coefficient
  {
    var r := Normalized(coefficient, scale);
    ScaledGrows(r.coefficient, scale - r.scale, scale - r.scale);
  }

  /** An admitted decimal is a fixed point of its own constructor. */
  lemma {:induction false} FromPartsOfDecimal(d: Decimal)
    ensures FromParts(d.coefficient, d.scale) == Ok(d)
  {
  }

  function NewPositive(value: Decimal): (r: Result<PositiveDecimal, AmountError>)
    ensures r.Ok? <==> Micro(value) > 0
    ensures r == Err(MustBePositive) <==> Micro(value) == 0
  {
    MicroPositive(value);
    ScaledZero(MAX_SCALE - value.scale);
    if value.coefficient == 0 then Err(MustBePositive) else Ok(value)
  }

  // ----- arithmetic and order

  function Max(a: nat, b: nat): nat {
    if a > b then a else b
  }

  /** The unchecked product of the source always fits in an unsigned word. */
  function Aligned(d: Decimal, scale: nat): (r: U64)
    requires d.scale <= scale <= MAX_SCALE
    ensures Scaled(r, MAX_SCALE - scale) == Micro(d)
    ensures r <= MAX_COEFFICIENT * 1_000_000
  {
    MicroAtScale(d, scale);
    ScaledGrows(d.coefficient, scale - d.scale, 6);
    ScaledTable(d.coefficient);
    Scaled(d.coefficient, scale - d.scale)
  }

  function FromResult(coefficient: nat, scale: nat): Result<Decimal, AmountError> {
    var value := Normalized(coefficient, scale);
    FromParts(value.coefficient, value.scale)
  }

  lemma {:induction false} FromResultExact(coefficient: nat, scale: nat, micro: nat)
    requires scale <= MAX_SCALE && micro == Scaled(coefficient, MAX_SCALE - scale)
    ensures FromResult(coefficient, scale).Ok? <==> Representable(micro)
    ensures FromResult(coefficient, scale).Ok? ==> Micro(FromResult(coefficient, scale).value) == micro
    ensures FromResult(coefficient, scale).Err? ==> FromResult(coefficient, scale) == Err(CoefficientOutOfRange)
  {
    var n := Normalized(coefficient, scale);
    NormalizedValue(coefficient, scale);
    if Representable(micro) {
      var d: Decimal :| Micro(d) == micro;
      StrippedUnique(d, n);
    }
  }

  function CheckedAdd(a: Decimal, b: Decimal): Result<Decimal, AmountError> {
    var scale := Max(a.scale, b.scale);
    var coefficient := CheckedU64(Aligned(a, scale) + Aligned(b, scale));
    if coefficient.None? then Err(CoefficientOutOfRange) else FromResult(coefficient.value, scale)
  }

  function CheckedSub(a: Decimal, b: Decimal): Result<Decimal, AmountError> {
    var scale := Max(a.scale, b.scale);
    var coefficient := CheckedU64(Aligned(a, scale) - Aligned(b, scale));
    if coefficient.None? then Err(NegativeResult) else FromResult(coefficient.value, scale)
  }

  /** Sums, differences and order of aligned coefficients are those of the values. */
  lemma {:induction false} AlignedTogether(a: Decimal, b: Decimal, x: nat, y: nat, scale: nat)
    requires scale == Max(a.scale, b.scale) && x == Aligned(a, scale) && y == Aligned(b, scale)
    ensures Scaled(x + y, MAX_SCALE - scale) == Micro(a) + Micro(b)
    ensures x >= y ==> Scaled(x - y, MAX_SCALE - scale) == Micro(a) - Micro(b)
    ensures x < y <==> Micro(a) < Micro(b)
    ensures x == y <==> Micro(a) == Micro(b)
  {
    ScaledAdd(x, y, MAX_SCALE - scale);
    ScaledLeq(y, x, MAX_SCALE - scale);
    if x >= y {
      ScaledAdd(x - y, y, MAX_SCALE - scale);
    }
  }

  lemma {:induction false} SumParts(a: Decimal, b: Decimal) returns (total: nat, scale: nat)
    ensures scale <= MAX_SCALE && Scaled(total, MAX_SCALE - scale) == Micro(a) + Micro(b)
    ensures CheckedAdd(a, b) == FromResult(total, scale)
  {
    scale := Max(a.scale, b.scale);
    var x, y := Aligned(a, scale), Aligned(b, scale);
    total := x + y;
    AlignedTogether(a, b, x, y, scale);
    assert CheckedU64(x + y) == Some(total);
  }

  lemma {:induction false} DifferenceParts(a: Decimal, b: Decimal) returns (rest: nat, scale: nat)
    requires Micro(a) >= Micro(b)
    ensures scale <= MAX_SCALE && Scaled(rest, MAX_SCALE - scale) == Micro(a) - Micro(b)
    ensures CheckedSub(a, b) == FromResult(rest, scale)
  {
    scale := Max(a.scale, b.scale);
    var x, y := Aligned(a, scale), Aligned(b, scale);
    AlignedTogether(a, b, x, y, scale);
    rest := x - y;
    assert CheckedU64(x - y) == Some(rest);
  }

  /** Addition succeeds exactly when the sum is representable, and is then exact. */
  lemma {:induction false} CheckedAddExact(a: Decimal, b: Decimal)
    ensures CheckedAdd(a, b).Ok? <==> Representable(Micro(a) + Micro(b))
    ensures CheckedAdd(a, b).Ok? ==> Micro(CheckedAdd(a, b).value) == Micro(a) + Micro(b)
    ensures CheckedAdd(a, b).Err? ==> CheckedAdd(a, b) == Err(CoefficientOutOfRange)
  {
    var total, scale := SumParts(a, b);
    FromResultExact(total, scale, Micro(a) + Micro(b));
  }

  /** Subtraction succeeds exactly when the difference is a representable nonnegative value. */
  lemma {:induction false} CheckedSubExact(a: Decimal, b: Decimal)
    ensures CheckedSub(a, b).Ok? <==> Representable(Micro(a) - Micro(b))
    ensures CheckedSub(a, b).Ok? ==> Micro(CheckedSub(a, b).value) == Micro(a) - Micro(b)
    ensures CheckedSub(a, b) == Err(NegativeResult) <==> Micro(a) < Micro(b)
    ensures CheckedSub(a, b).Err? && Micro(a) >= Micro(b) ==> CheckedSub(a, b) == Err(CoefficientOutOfRange)
  {
    if Micro(a) >= Micro(b) {
      var rest, scale := DifferenceParts(a, b);
      FromResultExact(rest, scale, Micro(a) - Micro(b));
    } else {
      var scale := Max(a.scale, b.scale);
      AlignedTogether(a, b, Aligned(a, scale), Aligned(b, scale), scale);
    }
  }

  /** Subtracting what was added gives back the first operand, structurally. */
  lemma {:induction false} AddThenSub(a: Decimal, b: Decimal)
    requires CheckedAdd(a, b).Ok?
    ensures CheckedSub(CheckedAdd(a, b).value, b) == Ok(a)
    ensures CheckedAdd(b, a) == CheckedAdd(a, b)
  {
    var sum := CheckedAdd(a, b).value;
    CheckedAddExact(a, b);
    CheckedAddExact(b, a);
    StrippedUnique(sum, CheckedAdd(b, a).value);
    CheckedSubExact(sum, b);
    assert Representable(Micro(a));
    StrippedUnique(CheckedSub(sum, b).value, a);
  }

  datatype Ordering = Less | Equal | Greater

  function Cmp(a: Decimal, b: Decimal): Ordering {
    var scale := Max(a.scale, b.scale);
    var x, y := Aligned(a, scale), Aligned(b, scale);
    if x < y then Less else if x == y then Equal else Greater
  }

  predicate Leq(a: Decimal, b: Decimal) {
    Cmp(a, b) != Greater
  }

  /** `cmp` is the rational order, and its `Equal` is structural equality. */
  lemma {:induction false} CmpIsRational(a: Decimal, b: Decimal)
    ensures Cmp(a, b) == Less <==> Micro(a) < Micro(b)
    ensures Cmp(a, b) == Equal <==> a == b
    ensures Cmp(a, b) == Equal <==> Micro(a) == Micro(b)
    ensures Leq(a, b) <==> a.coefficient * Pow10(b.scale) <= b.coefficient * Pow10(a.scale)
  {
    var scale := Max(a.scale, b.scale);
    AlignedTogether(a, b, Aligned(a, scale), Aligned(b, scale), scale);
    MicroIsRationalOrder(a, b);
    if Micro(a) == Micro(b) {
      StrippedUnique(a, b);
    }
  }

  lemma {:induction false} MicroPositive(d: Decimal)
    ensures Micro(d) > 0 <==> d.coefficient > 0
  {
    ScaledLeq(d.coefficient, 0, MAX_SCALE - d.scale);
    ScaledZero(MAX_SCALE - d.scale);
  }

  // ----- text

  function Print(d: Decimal): string {
    if d.scale == 0 then NatText(d.coefficient)
    else
      var divisor := Pow10(d.scale);
      DivisionBounds(d.coefficient, divisor);
      NatText(d.coefficient / divisor) + "." + Padded(d.coefficient % divisor, d.scale)
  }

  function Parse(input: string): Result<Decimal, AmountError> {
    if input == "" || Utf8Len(input) > MAX_ENCODED_LEN then Err(InvalidFormat)
    else
      var dot := IndexOf(input, '.');
      var whole := input[..dot];
      var fraction := if dot < |input| then input[dot + 1..] else "";
      if dot < |input| && fraction == "" then Err(InvalidFormat)
      else if whole == "" || !AllDigits(whole) || !AllDigits(fraction) then Err(InvalidFormat)
      else if (|whole| > 1 && whole[0] == '0') || (fraction != "" && fraction[|fraction| - 1] == '0') then
        Err(NonCanonical)
      else if |fraction| > MAX_SCALE then Err(ScaleOutOfRange)
      else
        DigitsValueConcat(whole, fraction);
        FromParts(DigitsValue(whole + fraction), |fraction|)
  }

  /** The accumulation loop of `from_str`: it stops at the first partial value over the bound. */
  method ParseCoefficient(digits: string) returns (r: Result<nat, AmountError>)
    requires AllDigits(digits)
    ensures r == if DigitsValue(digits) <= MAX_COEFFICIENT then Ok(DigitsValue(digits))
                 else Err(CoefficientOutOfRange)
  {
    var coefficient: nat := 0;
    for i := 0 to |digits|
      invariant coefficient == DigitsValue(digits[..i]) <= MAX_COEFFICIENT
    {
      assert digits[..i + 1][..i] == digits[..i];
      var next := CheckedU64(coefficient * 10 + DigitValue(digits[i]));
      if next.None? || next.value > MAX_COEFFICIENT {
        PrefixValue(digits, i + 1);
        return Err(CoefficientOutOfRange);
      }
      coefficient := next.value;
    }
    assert digits[..|digits|] == digits;
    return Ok(coefficient);
  }

  lemma {:induction false} PrefixValue(digits: string, i: nat)
    requires AllDigits(digits) && i <= |digits|
    ensures DigitsValue(digits[..i]) <= DigitsValue(digits)
  {
    DigitsValueConcat(digits[..i], digits[i..]);
    assert digits[..i] + digits[i..] == digits;
    MulAtLeast(DigitsValue(digits[..i]), Pow10(|digits| - i));
  }

  method FromStr(input: string) returns (r: Result<Decimal, AmountError>)
    ensures r == Parse(input)
  {
    if input == "" || Utf8Len(input) > MAX_ENCODED_LEN {
      return Err(InvalidFormat);
    }
    var dot := IndexOf(input, '.');
    var whole, fraction := input[..dot], "";
    if dot < |input| {
      fraction := input[dot + 1..];
      if fraction == "" {
        return Err(InvalidFormat);
      }
    }
    AllDigitsConcat(whole, fraction);
    if whole == "" || !AllDigits(whole + fraction) {
      return Err(InvalidFormat);
    }
    if (|whole| > 1 && whole[0] == '0') || (fraction != "" && fraction[|fraction| - 1] == '0') {
      return Err(NonCanonical);
    }
    if |fraction| > MAX_SCALE {
      return Err(ScaleOutOfRange);
    }
    var coefficient :- ParseCoefficient(whole + fraction);
    return FromParts(coefficient, |fraction|);
  }

  lemma {:induction false} LastDigit(digits: string)
    requires AllDigits(digits) && digits != ""
    ensures DigitsValue(digits) % 10 == DigitValue(digits[|digits| - 1])
  {
  }

  /** The digit groups of an accepted spelling. */
  lemma {:induction false} CutAt(input: string, k: nat)
    requires k < |input|
    ensures input == input[..k] + [input[k]] + input[k + 1..]
  {
  }

  lemma {:induction false} ParseGroups(input: string, d: Decimal) returns (whole: string, fraction: string)
    requires Parse(input) == Ok(d)
    ensures CanonicalDigits(whole) && AllDigits(fraction) && AllDigits(whole + fraction) && |fraction| <= MAX_SCALE
    ensures Ok(d) == FromParts(DigitsValue(whole + fraction), |fraction|)
    ensures fraction == "" ==> input == whole
    ensures fraction != "" ==> fraction[|fraction| - 1] != '0' && input == whole + "." + fraction
  {
    var dot := IndexOf(input, '.');
    whole := input[..dot];
    fraction := if dot < |input| then input[dot + 1..] else "";
    AllDigitsConcat(whole, fraction);
    if dot < |input| {
      CutAt(input, dot);
    }
  }

  /** Every accepted spelling is the printed form of the value it denotes. */
  lemma {:induction false} PrintAfterParse(input: string)
    requires Parse(input).Ok?
    ensures Print(Parse(input).value) == input
  {
    var d := Parse(input).value;
    var whole, fraction := ParseGroups(input, d);
    if fraction == "" {
      assert whole + fraction == whole;
      PrintOfDigits(whole, d);
    } else {
      PrintOfGroups(whole, fraction, d);
    }
  }

  lemma {:induction false} PrintOfDigits(whole: string, d: Decimal)
    requires CanonicalDigits(whole) && Ok(d) == FromParts(DigitsValue(whole), 0)
    ensures Print(d) == whole
  {
    NatTextOfValue(whole);
  }

  lemma {:induction false} PrintOfGroups(whole: string, fraction: string, d: Decimal)
    requires CanonicalDigits(whole) && AllDigits(fraction) && AllDigits(whole + fraction)
    requires 0 < |fraction| <= MAX_SCALE && fraction[|fraction| - 1] != '0'
    requires Ok(d) == FromParts(DigitsValue(whole + fraction), |fraction|)
    ensures Print(d) == whole + "." + fraction
  {
    DigitsValueConcat(whole, fraction);
    PaddedOfValue(fraction);
    NatTextOfValue(whole);
    LastDigit(whole + fraction);
    assert d == Parts(DigitsValue(whole + fraction), |fraction|);
    DivModUnique(d.coefficient, DigitsValue(whole), DigitsValue(fraction), Pow10(|fraction|));
  }

  /** What the parser makes of a spelling already split into its two digit groups. */
  lemma {:induction false} ParseOfGroups(whole: string, fraction: string)
    requires CanonicalDigits(whole) && AllDigits(fraction) && 0 < |fraction| <= MAX_SCALE
    requires fraction[|fraction| - 1] != '0' && |whole| + |fraction| < MAX_ENCODED_LEN
    ensures AllDigits(whole + fraction)
    ensures Parse(whole + "." + fraction) == FromParts(DigitsValue(whole + fraction), |fraction|)
  {
    var input := whole + "." + fraction;
    assert Ascii(input);
    AsciiLength(input);
    assert input[|whole|] == '.' && IndexOf(input, '.') == |whole|;
    assert input[..|whole|] == whole && input[|whole| + 1..] == fraction;
  }

  lemma {:induction false} ParseOfDigits(whole: string)
    requires CanonicalDigits(whole) && |whole| <= MAX_ENCODED_LEN
    ensures Parse(whole) == FromParts(DigitsValue(whole), 0)
  {
    assert Ascii(whole);
    AsciiLength(whole);
    assert IndexOf(whole, '.') == |whole|;
    assert whole[..|whole|] + "" == whole;
  }

  lemma {:induction false} GroupsOfSplit(c: nat, high: nat, low: nat, scale: nat)
    requires scale > 0 && c % 10 != 0
    requires low < Pow10(scale) && c == high * Pow10(scale) + low
    ensures var digits := NatText(high) + Padded(low, scale);
            && AllDigits(digits) && DigitsValue(digits) == c
            && Padded(low, scale)[scale - 1] != '0'
  {
    var whole, fraction := NatText(high), Padded(low, scale);
    NatTextIsCanonical(high);
    PaddedValue(low, scale);
    DigitsValueConcat(whole, fraction);
    LastDigit(whole + fraction);
    assert (whole + fraction)[|whole + fraction| - 1] == fraction[scale - 1];
  }

  lemma {:induction false} WholeLength(c: nat, high: nat, divisor: nat, low: nat)
    requires c <= MAX_COEFFICIENT && divisor >= 1 && c == high * divisor + low
    ensures |NatText(high)| <= 12
  {
    MulAtLeast(high, divisor);
    NatTextLength(high, 12);
    Pow10Add(6, 6);
    Pow10Table();
  }

  lemma {:induction false} ParseOfSplit(d: Decimal, high: nat, low: nat)
    requires d.scale > 0 && low < Pow10(d.scale) && d.coefficient == high * Pow10(d.scale) + low
    ensures Parse(NatText(high) + "." + Padded(low, d.scale)) == Ok(d)
  {
    GroupsOfSplit(d.coefficient, high, low, d.scale);
    NatTextIsCanonical(high);
    WholeLength(d.coefficient, high, Pow10(d.scale), low);
    ParseOfGroups(NatText(high), Padded(low, d.scale));
    FromPartsOfDecimal(d);
  }

  lemma {:induction false} ParseOfWhole(d: Decimal)
    requires d.scale == 0
    ensures Parse(NatText(d.coefficient)) == Ok(d)
  {
    NatTextIsCanonical(d.coefficient);
    WholeLength(d.coefficient, d.coefficient, 1, 0);
    ParseOfDigits(NatText(d.coefficient));
    FromPartsOfDecimal(d);
  }

  lemma {:induction false} PrintSplit(d: Decimal) returns (high: nat, low: nat)
    requires d.scale > 0
    ensures low < Pow10(d.scale) && d.coefficient == high * Pow10(d.scale) + low
    ensures Print(d) == NatText(high) + "." + Padded(low, d.scale)
  {
    var divisor := Pow10(d.scale);
    DivisionBounds(d.coefficient, divisor);
    DivisionIdentity(d.coefficient, divisor);
    high, low := d.coefficient / divisor, d.coefficient % divisor;
  }

  /** Parsing the printed form of any decimal returns that decimal. */
  lemma {:induction false} ParseAfterPrint(d: Decimal)
    ensures Parse(Print(d)) == Ok(d)
  {
    if d.scale == 0 {
      ParseOfWhole(d);
    } else {
      var high, low := PrintSplit(d);
      ParseOfSplit(d, high, low);
    }
  }
}
