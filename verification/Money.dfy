/** Exact minor amounts and money of crates/domain/src/money.rs. */
module Monetary {
  import opened Digits
  import opened Results
  import opened Text

  const MAX_VALUE: nat := 999_999_999_999_999

  type MinorAmount = n: nat | n <= MAX_VALUE

  /** A registry code; the registry itself is not modelled. */
  type Currency = string

  datatype Money = Money(currency: Currency, minor: MinorAmount)

  datatype MoneyError =
    | InvalidMinorFormat
    | NonCanonicalMinor
    | MinorOutOfRange
    | CurrencyMismatch
    | NegativeResult

  function NewMinor(value: nat): Result<MinorAmount, MoneyError> {
    if value > MAX_VALUE then Err(MinorOutOfRange) else Ok(value)
  }

  // ----- text

  function ParseMinor(value: string): Result<MinorAmount, MoneyError> {
    if value == "" then Err(InvalidMinorFormat)
    else if Utf8Len(value) > 15 then Err(MinorOutOfRange)
    else if !AllDigits(value) then Err(InvalidMinorFormat)
    else if |value| > 1 && value[0] == '0' then Err(NonCanonicalMinor)
    else NewMinor(DigitsValue(value))
  }

  method MinorFromStr(value: string) returns (r: Result<MinorAmount, MoneyError>)
    ensures r == ParseMinor(value)
  {
    if value == "" {
      return Err(InvalidMinorFormat);
    }
    if Utf8Len(value) > 15 {
      return Err(MinorOutOfRange);
    }
    if !AllDigits(value) {
      return Err(InvalidMinorFormat);
    }
    if |value| > 1 && value[0] == '0' {
      return Err(NonCanonicalMinor);
    }
    AsciiLength(value);
    var result: nat := 0;
    for i := 0 to |value|
      invariant result == DigitsValue(value[..i]) <= MAX_VALUE
    {
      assert value[..i + 1][..i] == value[..i];
      var next := CheckedU64(result * 10 + DigitValue(value[i]));
      ShortDigits(value[..i + 1]);
      if next.None? {
        return Err(MinorOutOfRange);
      }
      result := next.value;
    }
    assert value[..|value|] == value;
    return NewMinor(result);
  }

  lemma ShortDigits(s: string)
    requires AllDigits(s) && |s| <= 15
    ensures DigitsValue(s) <= MAX_VALUE
  {
    DigitsValueBound(s);
    Pow10Monotone(|s|, 15);
    FifteenDigits();
  }

  lemma FifteenDigits()
    ensures Pow10(15) == MAX_VALUE + 1
  {
    Pow10Add(6, 6);
    Pow10Add(12, 3);
    Pow10Table();
  }

  /** Parsing accepts exactly the printed forms of in-range amounts, and inverts printing. */
  lemma MinorTextRoundTrip(value: string, minor: MinorAmount)
    ensures ParseMinor(value) == Ok(minor) <==> value == NatText(minor)
  {
    NatTextIsCanonical(minor);
    AsciiLength(NatText(minor));
    FifteenDigits();
    NatTextLength(minor, 15);
    if ParseMinor(value) == Ok(minor) {
      NatTextOfValue(value);
    }
  }

  // ----- checked arithmetic

  function WithResult(currency: Currency, value: int): Result<Money, MoneyError> {
    var word := CheckedU64(value);
    if word.None? then Err(MinorOutOfRange)
    else if NewMinor(word.value).Err? then Err(NewMinor(word.value).error)
    else Ok(Money(currency, word.value))
  }

  function CheckedAdd(a: Money, b: Money): (r: Result<Money, MoneyError>)
    ensures r.Ok? <==> a.currency == b.currency && a.minor + b.minor <= MAX_VALUE
    ensures r.Ok? ==> r.value.currency == b.currency && r.value.minor == a.minor + b.minor
    ensures r == Err(CurrencyMismatch) <==> a.currency != b.currency
    ensures r == Err(MinorOutOfRange) <==> a.currency == b.currency && a.minor + b.minor > MAX_VALUE
  {
    if a.currency != b.currency then Err(CurrencyMismatch)
    else
      var result := CheckedI128(a.minor + b.minor);
      if result.None? then Err(MinorOutOfRange) else WithResult(a.currency, result.value)
  }

  function CheckedSub(a: Money, b: Money): Result<Money, MoneyError> {
    if a.currency != b.currency then Err(CurrencyMismatch)
    else
      var result := CheckedI128(a.minor - b.minor);
      if result.None? || result.value < 0 then Err(NegativeResult) else WithResult(a.currency, result.value)
  }

  /** Each operation undoes the other wherever the first one succeeds. */
  lemma AddSubInverse(a: Money, b: Money)
    ensures CheckedAdd(a, b).Ok? ==> CheckedSub(CheckedAdd(a, b).value, b) == Ok(a)
    ensures CheckedSub(a, b).Ok? ==> CheckedAdd(CheckedSub(a, b).value, b) == Ok(a)
    ensures CheckedSub(a, b).Ok? <==> a.currency == b.currency && a.minor >= b.minor
    ensures CheckedSub(a, b) == Err(CurrencyMismatch) <==> a.currency != b.currency
    ensures CheckedSub(a, b) == Err(NegativeResult) <==> a.currency == b.currency && a.minor < b.minor
  {
  }
}
