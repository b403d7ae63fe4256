/** Complete stock allocation of agreed terms: crates/domain/src/stock/mapping.rs and
    crates/domain/src/stock/allocation.rs. */
module Allocations {
  import opened Amount
  import opened Arithmetic
  import opened Digits
  import opened Quantities
  import opened Results
  import opened Sequences
  import opened Stock
  import Agreements
  import opened VariablePrice
  import Listings

  const MAX_SEQUENCE: nat := 0x7FFF_FFFF_FFFF_FFFF
  const MAX_POOLS: nat := 96
  const MAX_ALLOCATIONS: nat := 64

  type Id = Listings.Id

  type Sequence = n: nat | n <= MAX_SEQUENCE

  type FixedUnit = u: PoolUnit | ValidPoolUnit(u) witness PoolUnit(Each, 0)

  datatype AllocationError = InvalidInput | StaleState | Capacity

  datatype PoolSnapshot = PoolSnapshot(id: Id, unit: FixedUnit, balances: PoolBalances, version: Sequence)

  datatype MappingParts = MappingParts(
    author: Id,
    listing: Id,
    option: Id,
    pool: Id,
    unit: FixedUnit,
    perSaleUnit: Quantity,
    perSaleTicks: StockTicks,
    version: Sequence)

  datatype ClaimParts = ClaimParts(line: Id, pool: Id, quantity: Quantity, expected: Sequence)

  /** A claim is for a positive quantity at a positive version. */
  type Claim = c: ClaimParts | c.quantity.amount.coefficient > 0 && c.expected > 0
    witness ClaimParts(0, 0, QuantityParts(Parts(1, 0), Each), 1)

  datatype Allocation = Allocation(line: Id, pool: Id, ticks: StockTicks)

  // ----- ticks and physical values

  /** Converting to a pool's unit and counting its ticks; every failure is invalid input. */
  function TicksIn(unit: FixedUnit, q: Quantity): Result<StockTicks, AllocationError> {
    var converted := Convert(q, unit.unit);
    if converted.Err? then Err(InvalidInput)
    else
      var ticks := TicksFor(unit, converted.value);
      if ticks.Err? then Err(InvalidInput) else Ok(ticks.value)
  }

  /** What a number of ticks amounts to, in millionths of a gram, millilitre or piece. */
  function PhysicalTicks(unit: FixedUnit, ticks: nat): nat {
    InBase(Scaled(ticks, 6 - unit.scale), unit.unit)
  }

  /** Ticks keep the physical value of the quantity they count, whatever unit it was stated in. */
  lemma {:induction false} TicksInPhysical(unit: FixedUnit, q: Quantity, ticks: StockTicks)
    requires TicksIn(unit, q) == Ok(ticks)
    ensures PhysicalTicks(unit, ticks) == PhysicalMicro(q)
  {
    var converted := Convert(q, unit.unit).value;
    ConvertExact(q, unit.unit);
    TicksForExact(unit, converted);
    ScaledProduct(ticks, 6 - unit.scale);
  }

  lemma {:induction false} PhysicalTicksAdd(unit: FixedUnit, a: nat, b: nat)
    ensures PhysicalTicks(unit, a + b) == PhysicalTicks(unit, a) + PhysicalTicks(unit, b)
  {
    ScaledAdd(a, b, 6 - unit.scale);
  }

  lemma {:induction false} PhysicalTicksOrder(unit: FixedUnit, a: nat, b: nat)
    ensures PhysicalTicks(unit, a) == PhysicalTicks(unit, b) <==> a == b
  {
    ScaledLeq(a, b, 6 - unit.scale);
  }

  /** A positive quantity is a positive number of ticks. */
  lemma {:induction false} PositiveTicks(unit: FixedUnit, q: Quantity, ticks: StockTicks)
    requires TicksIn(unit, q) == Ok(ticks) && q.amount.coefficient > 0
    ensures ticks > 0
  {
    TicksInPhysical(unit, q, ticks);
    MicroPositive(q.amount);
    if ticks == 0 {
      ScaledZero(6 - unit.scale);
    }
  }

  // ----- the draw of one line

  /** `draw_for_sales`: the per-sale ticks times the sold amount, refused unless whole and in range. */
  function DrawForSales(m: MappingParts, sales: PositiveDecimal): Result<StockTicks, StockError> {
    var numerator := m.perSaleTicks * sales.coefficient;
    var denominator := Pow10(sales.scale);
    if numerator > U128_MAX then Err(OutOfRange)
    else if numerator % denominator != 0 then Err(TickPrecisionLoss)
    else
      var ticks := CheckedU64(numerator / denominator);
      if ticks.None? then Err(OutOfRange) else NewTicks(ticks.value)
  }

  const U128_MAX: nat := 0xFFFF_FFFF_FFFF_FFFF_FFFF_FFFF_FFFF_FFFF

  /** The draw is the exact product of per-sale ticks and sold amount, and exists exactly when that
      product is a whole number of ticks in range. */
  lemma {:induction false} DrawExact(m: MappingParts, sales: PositiveDecimal, ticks: StockTicks)
    ensures DrawForSales(m, sales) == Ok(ticks) <==> ticks * Pow10(sales.scale) == m.perSaleTicks * sales.coefficient
    ensures DrawForSales(m, sales) == Err(TickPrecisionLoss) <==>
              m.perSaleTicks * sales.coefficient % Pow10(sales.scale) != 0
    ensures DrawForSales(m, sales).Err? && m.perSaleTicks * sales.coefficient % Pow10(sales.scale) == 0 ==>
              DrawForSales(m, sales) == Err(OutOfRange)
  {
    var numerator, denominator := m.perSaleTicks * sales.coefficient, Pow10(sales.scale);
    NumeratorFits(m.perSaleTicks, sales.coefficient);
    DivisionIdentity(numerator, denominator);
    if ticks * denominator == numerator {
      DivModUnique(numerator, ticks, 0, denominator);
    }
  }

  lemma NumeratorFits(ticks: StockTicks, coefficient: nat)
    requires coefficient <= MAX_COEFFICIENT
    ensures 0 <= ticks * coefficient <= U128_MAX
  {
    MulMonotone(ticks, MAX_TICKS, coefficient);
    MulMonotone(coefficient, MAX_COEFFICIENT, MAX_TICKS);
  }

  /** What `OptionPoolMapping::new` establishes: a positive version and the exact positive ticks of one sale. */
  predicate ValidMapping(m: MappingParts) {
    m.version > 0 && m.perSaleTicks > 0 && TicksIn(m.unit, m.perSaleUnit) == Ok(m.perSaleTicks)
  }

  datatype MappingError = InvalidVersion | ZeroDraw | Inconvertible(quantity: QuantityError) | Uncountable(stock: StockError)

  /** `OptionPoolMapping::new`, with the listing coordinate written as its author and listing. */
  function NewMapping(author: Id, listing: Id, option: Id, pool: Id, unit: FixedUnit, perSaleUnit: Quantity,
                      version: Sequence): Result<MappingParts, MappingError>
  {
    if version == 0 then Err(InvalidVersion)
    else if perSaleUnit.amount.coefficient == 0 then Err(ZeroDraw)
    else
      var normalized := Convert(perSaleUnit, unit.unit);
      if normalized.Err? then Err(Inconvertible(normalized.error))
      else
        var ticks := TicksFor(unit, normalized.value);
        if ticks.Err? then Err(Uncountable(ticks.error))
        else if ticks.value == 0 then Err(ZeroDraw)
        else Ok(MappingParts(author, listing, option, pool, unit, perSaleUnit, ticks.value, version))
  }

  /** A mapping is built exactly at a positive version from a positive quantity that the pool counts exactly; it keeps
      what it was given, and its second test for a zero draw never fires. */
  lemma {:induction false} MappingBuiltExactly(author: Id, listing: Id, option: Id, pool: Id, unit: FixedUnit,
                                               perSaleUnit: Quantity, version: Sequence, m: MappingParts)
    ensures NewMapping(author, listing, option, pool, unit, perSaleUnit, version) == Ok(m) <==>
              && (m.author, m.listing, m.option, m.pool) == (author, listing, option, pool)
              && m.unit == unit && m.perSaleUnit == perSaleUnit && m.version == version
              && ValidMapping(m)
    ensures NewMapping(author, listing, option, pool, unit, perSaleUnit, version) == Err(ZeroDraw) <==>
              version > 0 && perSaleUnit.amount.coefficient == 0
    ensures ValidMapping(m) <==>
              && m.version > 0 && m.perSaleUnit.amount.coefficient > 0
              && DimensionOf(m.perSaleUnit.unit) == DimensionOf(m.unit.unit)
              && Expressible(PhysicalMicro(m.perSaleUnit), m.unit.unit)
              && PhysicalTicks(m.unit, m.perSaleTicks) == PhysicalMicro(m.perSaleUnit)
  {
    TicksInExact(m.unit, m.perSaleUnit, m.perSaleTicks);
    MappingTicks(unit, perSaleUnit);
    MappingTicks(m.unit, m.perSaleUnit);
  }

  /** A quantity is worth no ticks exactly when it is zero. */
  lemma {:induction false} MappingTicks(unit: FixedUnit, q: Quantity)
    ensures TicksIn(unit, q).Ok? ==> (TicksIn(unit, q).value == 0 <==> q.amount.coefficient == 0)
  {
    if TicksIn(unit, q).Ok? {
      var ticks := TicksIn(unit, q).value;
      if q.amount.coefficient > 0 {
        PositiveTicks(unit, q, ticks);
      } else {
        TicksInPhysical(unit, q, ticks);
        ScaledZero(6 - q.amount.scale);
        PhysicalTicksOrder(unit, ticks, 0);
        ScaledZero(6 - unit.scale);
      }
    }
  }

  lemma {:induction false} RegroupDraw(t: nat, d: nat, p: nat, x: nat, c: nat, unit: MeasurementUnit)
    requires t * d == x * c
    ensures InBase(t * p, unit) * d == InBase(x * p, unit) * c
  {
    MulRegroup(t, p, d, 1);
    MulRegroup(x, p, c, 1);
    MulAssociative(1_000, t * p, d);
    MulAssociative(1_000, x * p, c);
  }

  /** A draw is worth the sold amount times the declared per-sale quantity, whatever units they are stated in. */
  lemma {:induction false} DrawPhysical(m: MappingParts, sales: PositiveDecimal, ticks: StockTicks)
    requires ValidMapping(m) && DrawForSales(m, sales) == Ok(ticks)
    ensures PhysicalTicks(m.unit, ticks) * Pow10(sales.scale) == PhysicalMicro(m.perSaleUnit) * sales.coefficient
  {
    DrawExact(m, sales, ticks);
    TicksInPhysical(m.unit, m.perSaleUnit, m.perSaleTicks);
    ScaledProduct(ticks, 6 - m.unit.scale);
    ScaledProduct(m.perSaleTicks, 6 - m.unit.scale);
    RegroupDraw(ticks, Pow10(sales.scale), Pow10(6 - m.unit.scale), m.perSaleTicks, sales.coefficient, m.unit.unit);
  }

  function Required(price: Agreements.AgreementPrice, amount: PositiveDecimal, m: MappingParts)
    : Result<StockTicks, AllocationError>
  {
    match price
    case AgreedFixed(_) =>
      var ticks := DrawForSales(m, amount);
      if ticks.Err? then Err(InvalidInput) else Ok(ticks.value)
    case AgreedVariable(weight) =>
      var q := NewQuantity(weight.maximum, weight.measurementUnit);
      if q.Err? then Err(InvalidInput) else TicksIn(m.unit, q.value)
  }

  /** The observed pools by id; a later observation of an id would replace an earlier one. */
  function Index(pools: seq<PoolSnapshot>): map<Id, PoolSnapshot> {
    if pools == [] then map[] else Index(pools[..|pools| - 1])[pools[|pools| - 1].id := pools[|pools| - 1]]
  }

  predicate Matches(line: Agreements.AgreementLine, m: MappingParts, available: map<Id, PoolSnapshot>) {
    && m.author == line.source.author && m.listing == line.source.listing && m.option == line.option.id
    && m.pool in available && available[m.pool].unit == m.unit
  }

  /** The positive number of mapping ticks a line must draw. */
  function LineDraw(line: Agreements.AgreementLine, m: MappingParts, available: map<Id, PoolSnapshot>)
    : Result<StockTicks, AllocationError>
  {
    if !Matches(line, m, available) then Err(StaleState)
    else
      var required :- Required(line.price, line.amount, m);
      if required == 0 then Err(InvalidInput) else Ok(required)
  }

  // ----- what a line must draw, without naming the code that computes it

  /** A quantity is a number of ticks exactly when the pool's unit can express it and that many ticks have its value. */
  lemma {:induction false} TicksInExact(unit: FixedUnit, q: Quantity, ticks: StockTicks)
    ensures TicksIn(unit, q) == Ok(ticks) <==>
              && DimensionOf(q.unit) == DimensionOf(unit.unit) && Expressible(PhysicalMicro(q), unit.unit)
              && PhysicalTicks(unit, ticks) == PhysicalMicro(q)
  {
    ConvertExact(q, unit.unit);
    if TicksIn(unit, q) == Ok(ticks) {
      TicksInPhysical(unit, q, ticks);
    }
    if Convert(q, unit.unit).Ok? && PhysicalTicks(unit, ticks) == PhysicalMicro(q) {
      TicksOfConverted(unit, Convert(q, unit.unit).value, ticks);
    }
  }

  lemma {:induction false} TicksOfConverted(unit: FixedUnit, q: Quantity, ticks: StockTicks)
    requires q.unit == unit.unit && PhysicalTicks(unit, ticks) == PhysicalMicro(q)
    ensures TicksFor(unit, q) == Ok(ticks)
  {
    ScaledProduct(ticks, 6 - unit.scale);
    TicksOfValue(unit, q, ticks);
  }

  /** The physical requirement of a line: its agreed maximum weight, or its amount times the per-sale quantity. */
  ghost predicate WorthOf(line: Agreements.AgreementLine, m: MappingParts, physical: int) {
    match line.price
    case AgreedVariable(w) => physical == InBase(Micro(w.maximum), w.measurementUnit)
    case AgreedFixed(_) =>
      physical * Pow10(line.amount.scale) == InBase(Micro(m.perSaleUnit.amount), m.perSaleUnit.unit) * line.amount.coefficient
  }

  /** The maximum weight can be counted in the pool's unit at all. */
  ghost predicate Countable(line: Agreements.AgreementLine, unit: FixedUnit) {
    line.price.AgreedVariable? ==>
      var w := line.price.weight;
      && (w.measurementUnit == Each ==> w.maximum.scale == 0)
      && DimensionOf(w.measurementUnit) == DimensionOf(unit.unit)
      && Expressible(InBase(Micro(w.maximum), w.measurementUnit), unit.unit)
  }

  /** The mapping is the one for the line's own listing and option, onto an observed pool of its own unit. */
  predicate MappingFits(line: Agreements.AgreementLine, m: MappingParts, available: map<Id, PoolSnapshot>) {
    && (m.author, m.listing, m.option) == (line.source.author, line.source.listing, line.option.id)
    && m.pool in available && available[m.pool].unit == m.unit
  }

  /** A common positive factor can be cancelled from both products. */
  lemma {:induction false} CancelFactor(t: nat, p: nat, d: nat, x: nat, c: nat)
    requires p > 0 && (t * p) * d == (x * p) * c
    ensures t * d == x * c
  {
    MulRegroup(t, p, d, 1);
    MulRegroup(x, p, c, 1);
    MulCommutes(p, d);
    MulCommutes(p, c);
    MulAssociative(t, d, p);
    MulAssociative(x, c, p);
    ScaledOrder(t * d, x * c, p);
  }

  lemma {:induction false} CancelUnit(a: nat, d: nat, b: nat, c: nat, unit: MeasurementUnit)
    requires InBase(a, unit) * d == InBase(b, unit) * c
    ensures a * d == b * c
  {
    MulAssociative(1_000, a, d);
    MulAssociative(1_000, b, c);
  }

  /** Products of tick values agree only if the products of ticks do. */
  lemma {:induction false} TicksCancel(unit: FixedUnit, t: nat, d: nat, x: nat, c: nat)
    requires PhysicalTicks(unit, t) * d == PhysicalTicks(unit, x) * c
    ensures t * d == x * c
  {
    var k: nat := 6 - unit.scale;
    ScaledProduct(t, k);
    ScaledProduct(x, k);
    CancelUnit(Scaled(t, k), d, Scaled(x, k), c, unit.unit);
    CancelFactor(t, Pow10(k), d, x, c);
  }

  lemma {:induction false} DrawWorth(m: MappingParts, sales: PositiveDecimal, ticks: StockTicks)
    requires ValidMapping(m)
    ensures DrawForSales(m, sales) == Ok(ticks) <==>
              PhysicalTicks(m.unit, ticks) * Pow10(sales.scale) == PhysicalMicro(m.perSaleUnit) * sales.coefficient
  {
    DrawExact(m, sales, ticks);
    TicksInPhysical(m.unit, m.perSaleUnit, m.perSaleTicks);
    if DrawForSales(m, sales) == Ok(ticks) {
      DrawPhysical(m, sales, ticks);
    } else if PhysicalTicks(m.unit, ticks) * Pow10(sales.scale) == PhysicalMicro(m.perSaleUnit) * sales.coefficient {
      TicksCancel(m.unit, ticks, Pow10(sales.scale), m.perSaleTicks, sales.coefficient);
    }
  }

  /** A line draws a positive number of ticks exactly when its mapping fits and those ticks have its physical worth. */
  lemma {:induction false} LineDrawExact(line: Agreements.AgreementLine, m: MappingParts,
                                         available: map<Id, PoolSnapshot>, ticks: StockTicks)
    requires ValidMapping(m)
    ensures LineDraw(line, m, available) == Ok(ticks) <==>
              && MappingFits(line, m, available) && ticks > 0 && Countable(line, m.unit)
              && WorthOf(line, m, PhysicalTicks(m.unit, ticks))
  {
    match line.price
    case AgreedFixed(_) =>
      DrawWorth(m, line.amount, ticks);
    case AgreedVariable(w) =>
      if w.measurementUnit == Each ==> w.maximum.scale == 0 {
        TicksInExact(m.unit, QuantityParts(w.maximum, w.measurementUnit), ticks);
      }
  }

  // ----- explicit claims for one line

  datatype Cover = Cover(covered: StockTicks, draws: seq<Allocation>)

  /** One claim: its ticks in the mapping's unit are added up, its ticks in its own pool's unit are drawn. */
  function CoverClaim(unit: FixedUnit, available: map<Id, PoolSnapshot>, cover: Cover, c: Claim)
    : Result<Cover, AllocationError>
  {
    if c.pool !in available then Err(StaleState)
    else if available[c.pool].version != c.expected then Err(StaleState)
    else
      var normalized :- TicksIn(unit, c.quantity);
      var covered := AddTicks(cover.covered, normalized);
      if covered.Err? then Err(Capacity)
      else
        var ticks :- TicksIn(available[c.pool].unit, c.quantity);
        Ok(Cover(covered.value, cover.draws + [Allocation(c.line, c.pool, ticks)]))
  }

  function CoverClaims(unit: FixedUnit, available: map<Id, PoolSnapshot>, cover: Cover, claims: seq<Claim>)
    : Result<Cover, AllocationError>
    decreases |claims|
  {
    if claims == [] then Ok(cover)
    else
      var next :- CoverClaim(unit, available, cover, claims[0]);
      CoverClaims(unit, available, next, claims[1..])
  }

  predicate ForLine(c: Claim, line: Id) { c.line == line }

  function ClaimsFor(claims: seq<Claim>, line: Id): seq<Claim> {
    Select(claims, (c: Claim) => ForLine(c, line))
  }

  function ResolveLine(line: Agreements.AgreementLine, m: MappingParts, available: map<Id, PoolSnapshot>,
                       explicit: Option<seq<Claim>>): Result<seq<Allocation>, AllocationError>
  {
    var required :- LineDraw(line, m, available);
    if explicit.None? then Ok([Allocation(line.id, m.pool, required)])
    else
      var cover :- CoverClaims(m.unit, available, Cover(0, []), ClaimsFor(explicit.value, line.id));
      if cover.covered != required then Err(InvalidInput) else Ok(cover.draws)
  }

  function ResolveLines(lines: seq<Agreements.AgreementLine>, mappings: seq<MappingParts>,
                        available: map<Id, PoolSnapshot>, explicit: Option<seq<Claim>>)
    : Result<seq<Allocation>, AllocationError>
    requires |lines| == |mappings|
    decreases |lines|
  {
    if lines == [] then Ok([])
    else
      var here :- ResolveLine(lines[0], mappings[0], available, explicit);
      var rest :- ResolveLines(lines[1..], mappings[1..], available, explicit);
      Ok(here + rest)
  }

  // ----- complete resolution

  predicate SamePair(a: Claim, b: Claim) { a.line == b.line && a.pool == b.pool }

  predicate PairsDistinct(claims: seq<Claim>) {
    forall i, j :: 0 <= i < j < |claims| ==> !SamePair(claims[i], claims[j])
  }

  predicate ClaimsAdmitted(explicit: Option<seq<Claim>>) {
    explicit.Some? ==> 1 <= |explicit.value| <= MAX_ALLOCATIONS && PairsDistinct(explicit.value)
  }

  predicate PoolsAdmitted(pools: seq<PoolSnapshot>) {
    && (forall i :: 0 <= i < |pools| ==> pools[i].version > 0)
    && (forall i, j :: 0 <= i < j < |pools| ==> pools[i].id != pools[j].id)
  }

  predicate AllocationLess(a: Allocation, b: Allocation) {
    a.pool < b.pool || (a.pool == b.pool && a.line < b.line)
  }

  function Insert(a: Allocation, s: seq<Allocation>): seq<Allocation> {
    if s == [] || !AllocationLess(s[0], a) then [a] + s else [s[0]] + Insert(a, s[1..])
  }

  /** A stable sort by pool and then line. */
  function SortAllocations(s: seq<Allocation>): seq<Allocation> {
    if s == [] then [] else Insert(s[0], SortAllocations(s[1..]))
  }

  function Resolve(t: Agreements.Terms, mappings: seq<MappingParts>, pools: seq<PoolSnapshot>,
                   explicit: Option<seq<Claim>>): Result<seq<Allocation>, AllocationError>
  {
    if t.supply.FuturePromise? then
      if explicit.Some? || mappings != [] || pools != [] then Err(InvalidInput) else Ok([])
    else if |mappings| != |t.lines| || |pools| > MAX_POOLS then Err(InvalidInput)
    else if !ClaimsAdmitted(explicit) || !PoolsAdmitted(pools) then Err(InvalidInput)
    else
      var result :- ResolveLines(t.lines, mappings, Index(pools), explicit);
      if explicit.Some? && |result| != |explicit.value| then Err(InvalidInput)
      else if result == [] || |result| > MAX_ALLOCATIONS then Err(InvalidInput)
      else Ok(SortAllocations(result))
  }

  // ----- the loops of the source

  /** The result of the lines still to come, after the draws so far. */
  function After(result: seq<Allocation>, rest: Result<seq<Allocation>, AllocationError>)
    : Result<seq<Allocation>, AllocationError>
  {
    if rest.Err? then rest else Ok(result + rest.value)
  }

  method CheckClaims(choices: seq<Claim>) returns (ok: bool)
    ensures ok == PairsDistinct(choices)
  {
    for index := 0 to |choices|
      invariant PairsDistinct(choices[..index])
    {
      if exists i :: 0 <= i < index && SamePair(choices[i], choices[index]) {
        return false;
      }
    }
    assert choices[..|choices|] == choices;
    return true;
  }

  method ObservePools(pools: seq<PoolSnapshot>) returns (r: Option<map<Id, PoolSnapshot>>)
    ensures r == if PoolsAdmitted(pools) then Some(Index(pools)) else None
  {
    var available: map<Id, PoolSnapshot> := map[];
    for k := 0 to |pools|
      invariant PoolsAdmitted(pools[..k]) && available == Index(pools[..k])
    {
      IndexExact(pools[..k]);
      assert pools[..k + 1][..k] == pools[..k];
      if pools[k].version == 0 || pools[k].id in available {
        return None;
      }
      available := available[pools[k].id := pools[k]];
    }
    assert pools[..|pools|] == pools;
    return Some(available);
  }

  method CoverLine(line: Id, unit: FixedUnit, available: map<Id, PoolSnapshot>, claims: seq<Claim>)
    returns (r: Result<Cover, AllocationError>)
    ensures r == CoverClaims(unit, available, Cover(0, []), ClaimsFor(claims, line))
  {
    var covered: StockTicks, draws: seq<Allocation> := 0, [];
    assert claims[0..] == claims;
    for k := 0 to |claims|
      invariant CoverClaims(unit, available, Cover(0, []), ClaimsFor(claims, line))
             == CoverClaims(unit, available, Cover(covered, draws), ClaimsFor(claims[k..], line))
    {
      var c := claims[k];
      assert claims[k..][0] == c && claims[k..][1..] == claims[k + 1..];
      if c.line == line {
        ghost var later := ClaimsFor(claims[k + 1..], line);
        assert ([c] + later)[1..] == later;
        if c.pool !in available || available[c.pool].version != c.expected {
          return Err(StaleState);
        }
        var normalized := TicksIn(unit, c.quantity);
        if normalized.Err? {
          return Err(normalized.error);
        }
        var sum := AddTicks(covered, normalized.value);
        if sum.Err? {
          return Err(Capacity);
        }
        var ticks := TicksIn(available[c.pool].unit, c.quantity);
        if ticks.Err? {
          return Err(ticks.error);
        }
        covered := sum.value;
        draws := draws + [Allocation(line, c.pool, ticks.value)];
      }
    }
    return Ok(Cover(covered, draws));
  }

  method ResolveAllocations(t: Agreements.Terms, mappings: seq<MappingParts>, pools: seq<PoolSnapshot>,
                            explicit: Option<seq<Claim>>)
    returns (r: Result<seq<Allocation>, AllocationError>)
    ensures r == Resolve(t, mappings, pools, explicit)
  {
    if t.supply.FuturePromise? {
      if explicit.Some? || mappings != [] || pools != [] {
        return Err(InvalidInput);
      }
      return Ok([]);
    }
    if |mappings| != |t.lines| || |pools| > MAX_POOLS {
      return Err(InvalidInput);
    }
    if explicit.Some? {
      if explicit.value == [] || |explicit.value| > MAX_ALLOCATIONS {
        return Err(InvalidInput);
      }
      var distinct := CheckClaims(explicit.value);
      if !distinct {
        return Err(InvalidInput);
      }
    }
    var observed := ObservePools(pools);
    if observed.None? {
      return Err(InvalidInput);
    }
    var result :- ResolveAllLines(t.lines, mappings, observed.value, explicit);
    if explicit.Some? && |result| != |explicit.value| {
      return Err(InvalidInput);
    }
    if result == [] || |result| > MAX_ALLOCATIONS {
      return Err(InvalidInput);
    }
    return Ok(SortAllocations(result));
  }

  method ResolveOneLine(line: Agreements.AgreementLine, m: MappingParts, available: map<Id, PoolSnapshot>,
                        explicit: Option<seq<Claim>>)
    returns (r: Result<seq<Allocation>, AllocationError>)
    ensures r == ResolveLine(line, m, available, explicit)
  {
    var required :- LineDraw(line, m, available);
    if explicit.None? {
      return Ok([Allocation(line.id, m.pool, required)]);
    }
    var cover :- CoverLine(line.id, m.unit, available, explicit.value);
    if cover.covered != required {
      return Err(InvalidInput);
    }
    return Ok(cover.draws);
  }

  method ResolveAllLines(lines: seq<Agreements.AgreementLine>, mappings: seq<MappingParts>,
                         available: map<Id, PoolSnapshot>, explicit: Option<seq<Claim>>)
    returns (r: Result<seq<Allocation>, AllocationError>)
    requires |lines| == |mappings|
    ensures r == ResolveLines(lines, mappings, available, explicit)
  {
    var result: seq<Allocation> := [];
    AfterNothing(lines, mappings, available, explicit);
    for k := 0 to |lines|
      invariant ResolveLines(lines, mappings, available, explicit)
             == After(result, ResolveLines(lines[k..], mappings[k..], available, explicit))
    {
      AfterLine(lines, mappings, available, explicit, result, k);
      var draws :- ResolveOneLine(lines[k], mappings[k], available, explicit);
      result := result + draws;
    }
    assert lines[|lines|..] == [] && result + [] == result;
    return Ok(result);
  }

  lemma AfterNothing(lines: seq<Agreements.AgreementLine>, mappings: seq<MappingParts>,
                     available: map<Id, PoolSnapshot>, explicit: Option<seq<Claim>>)
    requires |lines| == |mappings|
    ensures ResolveLines(lines, mappings, available, explicit)
         == After([], ResolveLines(lines[0..], mappings[0..], available, explicit))
  {
    assert lines[0..] == lines && mappings[0..] == mappings;
    var all := ResolveLines(lines, mappings, available, explicit);
    if all.Ok? {
      assert [] + all.value == all.value;
    }
  }

  /** One turn of the loop over the lines. */
  lemma AfterLine(lines: seq<Agreements.AgreementLine>, mappings: seq<MappingParts>,
                  available: map<Id, PoolSnapshot>, explicit: Option<seq<Claim>>, result: seq<Allocation>, k: nat)
    requires |lines| == |mappings| && k < |lines|
    ensures var here := ResolveLine(lines[k], mappings[k], available, explicit);
            After(result, ResolveLines(lines[k..], mappings[k..], available, explicit))
            == if here.Err? then Err(here.error)
               else After(result + here.value, ResolveLines(lines[k + 1..], mappings[k + 1..], available, explicit))
  {
    assert lines[k..][1..] == lines[k + 1..] && mappings[k..][1..] == mappings[k + 1..];
    var here := ResolveLine(lines[k], mappings[k], available, explicit);
    var rest := ResolveLines(lines[k + 1..], mappings[k + 1..], available, explicit);
    if here.Ok? && rest.Ok? {
      assert result + (here.value + rest.value) == result + here.value + rest.value;
    }
  }

  // ----- the plan

  datatype Hold = Hold(before: PoolSnapshot, after: PoolSnapshot, quantity: StockTicks)

  function NewHold(before: PoolSnapshot, quantity: StockTicks): Result<Hold, AllocationError> {
    if before.version == 0 || quantity == 0 then Err(InvalidInput)
    else
      var balances := Apply(before.balances, HoldAvailable(quantity));
      if balances.Err? then Err(StaleState)
      else if before.version + 1 > MAX_SEQUENCE then Err(Capacity)
      else Ok(Hold(before, before.(balances := balances.value, version := before.version + 1), quantity))
  }

  /** Adds one allocation to the running total of its pool. */
  function AddToTotal(totals: map<Id, StockTicks>, a: Allocation): Result<map<Id, StockTicks>, AllocationError> {
    var sum := AddTicks(if a.pool in totals then totals[a.pool] else 0, a.ticks);
    if sum.Err? then Err(Capacity) else Ok(totals[a.pool := sum.value])
  }

  function Totals(totals: map<Id, StockTicks>, result: seq<Allocation>): Result<map<Id, StockTicks>, AllocationError>
    decreases |result|
  {
    if result == [] then Ok(totals)
    else
      var next :- AddToTotal(totals, result[0]);
      Totals(next, result[1..])
  }

  function PoolIds(result: seq<Allocation>): (ids: seq<Id>)
    ensures |ids| == |result| && forall i :: 0 <= i < |ids| ==> ids[i] == result[i].pool
  {
    if result == [] then [] else [result[0].pool] + PoolIds(result[1..])
  }

  predicate Known(ids: seq<Id>, totals: map<Id, StockTicks>, available: map<Id, PoolSnapshot>) {
    forall i :: 0 <= i < |ids| ==> ids[i] in totals && ids[i] in available
  }

  function Holds(ids: seq<Id>, totals: map<Id, StockTicks>, available: map<Id, PoolSnapshot>)
    : Result<seq<Hold>, AllocationError>
    requires Known(ids, totals, available)
    decreases |ids|
  {
    if ids == [] then Ok([])
    else
      var here :- NewHold(available[ids[0]], totals[ids[0]]);
      var rest :- Holds(ids[1..], totals, available);
      Ok([here] + rest)
  }

  // ----- what one line draws

  /** The physical value an allocation takes from its pool. */
  function DrawnPhysical(available: map<Id, PoolSnapshot>, a: Allocation): nat {
    if a.pool in available then PhysicalTicks(available[a.pool].unit, a.ticks) else 0
  }

  function LinePhysical(available: map<Id, PoolSnapshot>, line: Id): Allocation -> int {
    (a: Allocation) => if a.line == line then DrawnPhysical(available, a) else 0
  }

  function ClaimPhysical(c: Claim): int { PhysicalMicro(c.quantity) }

  /** A well-formed draw: positive, for the given line, from an observed pool. */
  predicate GoodDraw(available: map<Id, PoolSnapshot>, line: Id, a: Allocation) {
    a.line == line && a.pool in available && a.ticks > 0
  }

  predicate GoodDraws(available: map<Id, PoolSnapshot>, line: Id, draws: seq<Allocation>) {
    forall i :: 0 <= i < |draws| ==> GoodDraw(available, line, draws[i])
  }

  /** The claim names an observed pool at its current version and is whole in both units. */
  predicate Usable(unit: FixedUnit, available: map<Id, PoolSnapshot>, c: Claim) {
    && c.pool in available && available[c.pool].version == c.expected
    && TicksIn(unit, c.quantity).Ok? && TicksIn(available[c.pool].unit, c.quantity).Ok?
  }

  predicate AllUsable(unit: FixedUnit, available: map<Id, PoolSnapshot>, claims: seq<Claim>) {
    forall i :: 0 <= i < |claims| ==> Usable(unit, available, claims[i])
  }

  predicate AllFor(claims: seq<Claim>, line: Id) {
    forall i :: 0 <= i < |claims| ==> claims[i].line == line
  }

  function ClaimDraw(available: map<Id, PoolSnapshot>, c: Claim): Allocation
    requires c.pool in available && TicksIn(available[c.pool].unit, c.quantity).Ok?
  {
    Allocation(c.line, c.pool, TicksIn(available[c.pool].unit, c.quantity).value)
  }

  /** The draws and the physical value a cover has accumulated agree. */
  ghost predicate CoverInvariant(unit: FixedUnit, available: map<Id, PoolSnapshot>, line: Id, cover: Cover) {
    && GoodDraws(available, line, cover.draws)
    && SumBy(cover.draws, LinePhysical(available, line)) == PhysicalTicks(unit, cover.covered)
  }

  lemma {:induction false} CoverClaimKeeps(unit: FixedUnit, available: map<Id, PoolSnapshot>, line: Id,
                                           cover: Cover, c: Claim, next: Cover)
    requires CoverInvariant(unit, available, line, cover) && c.line == line
    requires CoverClaim(unit, available, cover, c) == Ok(next)
    ensures CoverInvariant(unit, available, line, next)
    ensures PhysicalTicks(unit, next.covered) == PhysicalTicks(unit, cover.covered) + ClaimPhysical(c)
    ensures next.draws == cover.draws + [ClaimDraw(available, c)]
  {
    var normalized := TicksIn(unit, c.quantity).value;
    var a := ClaimDraw(available, c);
    TicksInPhysical(unit, c.quantity, normalized);
    TicksInPhysical(available[c.pool].unit, c.quantity, a.ticks);
    PositiveTicks(available[c.pool].unit, c.quantity, a.ticks);
    PhysicalTicksAdd(unit, cover.covered, normalized);
    SumByConcat(cover.draws, [a], LinePhysical(available, line));
    assert SumBy([a], LinePhysical(available, line)) == DrawnPhysical(available, a) by { assert [a][1..] == []; }
  }

  lemma {:induction false} CoverClaimsKeep(unit: FixedUnit, available: map<Id, PoolSnapshot>, line: Id,
                                           cover: Cover, claims: seq<Claim>, r: Cover)
    requires CoverInvariant(unit, available, line, cover) && AllFor(claims, line)
    requires CoverClaims(unit, available, cover, claims) == Ok(r)
    ensures CoverInvariant(unit, available, line, r) && AllUsable(unit, available, claims)
    ensures PhysicalTicks(unit, r.covered) == PhysicalTicks(unit, cover.covered) + SumBy(claims, ClaimPhysical)
    ensures |r.draws| == |cover.draws| + |claims| && cover.draws <= r.draws
    ensures forall i :: 0 <= i < |claims| ==> ClaimDraw(available, claims[i]) in r.draws
    decreases |claims|
  {
    if claims != [] {
      var next := CoverClaim(unit, available, cover, claims[0]).value;
      CoverClaimKeeps(unit, available, line, cover, claims[0], next);
      CoverClaimsKeep(unit, available, line, next, claims[1..], r);
      assert next.draws[|cover.draws|] in r.draws;
    }
  }

  lemma PhysicalClaimsPositive(claims: seq<Claim>)
    ensures SumBy(claims, ClaimPhysical) >= 0
  {
    if claims != [] {
      PhysicalClaimsPositive(claims[1..]);
    }
  }

  lemma {:induction false} CoverClaimFits(unit: FixedUnit, available: map<Id, PoolSnapshot>, cover: Cover, c: Claim,
                                          rest: nat, required: StockTicks)
    requires Usable(unit, available, c)
    requires PhysicalTicks(unit, cover.covered) + ClaimPhysical(c) + rest == PhysicalTicks(unit, required)
    ensures CoverClaim(unit, available, cover, c).Ok?
    ensures PhysicalTicks(unit, CoverClaim(unit, available, cover, c).value.covered) + rest == PhysicalTicks(unit, required)
  {
    var normalized := TicksIn(unit, c.quantity).value;
    TicksInPhysical(unit, c.quantity, normalized);
    PhysicalTicksAdd(unit, cover.covered, normalized);
    PhysicalTicksLeq(unit, cover.covered + normalized, required);
    assert AddTicks(cover.covered, normalized) == Ok(cover.covered + normalized);
  }

  /** Usable claims worth exactly what is required are covered. */
  lemma {:induction false} CoverClaimsSucceed(unit: FixedUnit, available: map<Id, PoolSnapshot>,
                                              cover: Cover, claims: seq<Claim>, required: StockTicks)
    requires AllUsable(unit, available, claims)
    requires PhysicalTicks(unit, cover.covered) + SumBy(claims, ClaimPhysical) == PhysicalTicks(unit, required)
    ensures CoverClaims(unit, available, cover, claims).Ok?
    decreases |claims|
  {
    if claims != [] {
      PhysicalClaimsPositive(claims[1..]);
      CoverClaimFits(unit, available, cover, claims[0], SumBy(claims[1..], ClaimPhysical), required);
      var next := CoverClaim(unit, available, cover, claims[0]).value;
      CoverClaimsSucceed(unit, available, next, claims[1..], required);
    }
  }

  lemma {:induction false} PhysicalTicksLeq(unit: FixedUnit, a: nat, b: nat)
    ensures PhysicalTicks(unit, a) <= PhysicalTicks(unit, b) <==> a <= b
  {
    ScaledLeq(a, b, 6 - unit.scale);
  }

  lemma {:induction false} SelectMembers<T>(s: seq<T>, p: T -> bool)
    ensures forall x :: x in Select(s, p) <==> x in s && p(x)
  {
    if s != [] {
      SelectMembers(s[1..], p);
      assert s == [s[0]] + s[1..];
    }
  }

  lemma ClaimsForLine(claims: seq<Claim>, line: Id)
    ensures AllFor(ClaimsFor(claims, line), line)
    ensures forall c :: c in ClaimsFor(claims, line) <==> c in claims && c.line == line
  {
    SelectMembers(claims, (c: Claim) => ForLine(c, line));
    var selected := ClaimsFor(claims, line);
    assert forall i :: 0 <= i < |selected| ==> selected[i] in selected;
  }

  /** The claims for a line are usable and together worth exactly what the line must draw. */
  ghost predicate LineClaimed(line: Id, m: MappingParts, available: map<Id, PoolSnapshot>, claims: seq<Claim>,
                              required: StockTicks)
  {
    var mine := ClaimsFor(claims, line);
    AllUsable(m.unit, available, mine) && SumBy(mine, ClaimPhysical) == PhysicalTicks(m.unit, required)
  }

  /** A line resolves exactly when its draw is known and, with explicit claims, they are worth it exactly. */
  lemma {:induction false} ResolveLineExact(line: Agreements.AgreementLine, m: MappingParts,
                                            available: map<Id, PoolSnapshot>, explicit: Option<seq<Claim>>)
    ensures ResolveLine(line, m, available, explicit).Ok? <==>
              && LineDraw(line, m, available).Ok?
              && (explicit.Some? ==>
                    LineClaimed(line.id, m, available, explicit.value, LineDraw(line, m, available).value))
  {
    if LineDraw(line, m, available).Ok? && explicit.Some? {
      var required := LineDraw(line, m, available).value;
      var mine := ClaimsFor(explicit.value, line.id);
      ClaimsForLine(explicit.value, line.id);
      EmptyCover(m.unit, available, line.id);
      var cover := CoverClaims(m.unit, available, Cover(0, []), mine);
      if cover.Ok? {
        CoverClaimsKeep(m.unit, available, line.id, Cover(0, []), mine, cover.value);
        PhysicalTicksOrder(m.unit, cover.value.covered, required);
      } else if LineClaimed(line.id, m, available, explicit.value, required) {
        CoverClaimsSucceed(m.unit, available, Cover(0, []), mine, required);
      }
    }
  }

  lemma EmptyCover(unit: FixedUnit, available: map<Id, PoolSnapshot>, line: Id)
    ensures PhysicalTicks(unit, 0) == 0 && CoverInvariant(unit, available, line, Cover(0, []))
  {
    ScaledZero(6 - unit.scale);
  }

  /** What a resolved line draws: good draws worth exactly its requirement, one per claim if claims are given. */
  lemma {:induction false} ResolvedLine(line: Agreements.AgreementLine, m: MappingParts,
                                        available: map<Id, PoolSnapshot>, explicit: Option<seq<Claim>>,
                                        draws: seq<Allocation>)
    requires ResolveLine(line, m, available, explicit) == Ok(draws)
    ensures GoodDraws(available, line.id, draws)
    ensures SumBy(draws, LinePhysical(available, line.id))
         == PhysicalTicks(m.unit, LineDraw(line, m, available).value)
    ensures |draws| == if explicit.None? then 1 else |ClaimsFor(explicit.value, line.id)|
    ensures explicit.Some? ==> forall c | c in ClaimsFor(explicit.value, line.id) ::
              c.pool in available && TicksIn(available[c.pool].unit, c.quantity).Ok? && ClaimDraw(available, c) in draws
  {
    if explicit.None? {
      assert draws[1..] == [];
    } else {
      var mine := ClaimsFor(explicit.value, line.id);
      ClaimsForLine(explicit.value, line.id);
      EmptyCover(m.unit, available, line.id);
      CoverClaimsKeep(m.unit, available, line.id, Cover(0, []), mine,
                      CoverClaims(m.unit, available, Cover(0, []), mine).value);
    }
  }

  // ----- what all lines draw

  type Lines = seq<Agreements.AgreementLine>

  predicate Names(lines: Lines, id: Id) {
    exists i :: 0 <= i < |lines| && lines[i].id == id
  }

  /** One for a claim on some line of the list, else nothing. */
  function OnLines(lines: Lines): Claim -> int {
    (c: Claim) => if Names(lines, c.line) then 1 else 0
  }

  function OnLine(line: Id): Claim -> int {
    (c: Claim) => if c.line == line then 1 else 0
  }

  lemma {:induction false} CountFor(claims: seq<Claim>, line: Id)
    ensures |ClaimsFor(claims, line)| == SumBy(claims, OnLine(line))
  {
    if claims != [] {
      CountFor(claims[1..], line);
    }
  }

  lemma {:induction false} CountSplits(claims: seq<Claim>, lines: Lines)
    requires lines != [] && DistinctBy(lines, Agreements.LineId)
    ensures SumBy(claims, OnLines(lines)) == SumBy(claims, OnLine(lines[0].id)) + SumBy(claims, OnLines(lines[1..]))
  {
    if claims != [] {
      CountSplits(claims[1..], lines);
      NamesSplits(lines, claims[0].line);
    }
  }

  lemma NamesSplits(lines: Lines, id: Id)
    requires lines != [] && DistinctBy(lines, Agreements.LineId)
    ensures Names(lines, id) <==> lines[0].id == id || Names(lines[1..], id)
    ensures !(lines[0].id == id && Names(lines[1..], id))
  {
    if i :| 0 < i < |lines| && lines[i].id == id {
      assert lines[1..][i - 1].id == id;
    }
    if j :| 0 <= j < |lines[1..]| && lines[1..][j].id == id {
      assert lines[j + 1].id == id;
      assert Agreements.LineId(lines[0]) != Agreements.LineId(lines[j + 1]);
    }
  }

  lemma {:induction false} TailDistinct(lines: Lines)
    requires lines != [] && DistinctBy(lines, Agreements.LineId)
    ensures DistinctBy(lines[1..], Agreements.LineId)
  {
    assert forall i :: 0 <= i < |lines[1..]| ==> lines[1..][i] == lines[i + 1];
  }

  /** Draws of other lines add nothing. */
  lemma {:induction false} OtherLines(available: map<Id, PoolSnapshot>, line: Id, draws: seq<Allocation>)
    requires forall i :: 0 <= i < |draws| ==> draws[i].line != line
    ensures SumBy(draws, LinePhysical(available, line)) == 0
  {
    if draws != [] {
      OtherLines(available, line, draws[1..]);
    }
  }

  ghost predicate DrawsOf(available: map<Id, PoolSnapshot>, lines: Lines, draws: seq<Allocation>) {
    forall k :: 0 <= k < |draws| ==> Names(lines, draws[k].line) && draws[k].pool in available && draws[k].ticks > 0
  }

  lemma {:induction false} DrawsJoin(available: map<Id, PoolSnapshot>, lines: Lines, here: seq<Allocation>,
                                     rest: seq<Allocation>)
    requires lines != [] && DistinctBy(lines, Agreements.LineId)
    requires GoodDraws(available, lines[0].id, here) && DrawsOf(available, lines[1..], rest)
    ensures DrawsOf(available, lines, here + rest)
    ensures forall k :: 0 <= k < |rest| ==> rest[k].line != lines[0].id
  {
    forall k | 0 <= k < |rest|
      ensures Names(lines, rest[k].line) && rest[k].line != lines[0].id
    {
      NamesSplits(lines, rest[k].line);
    }
    forall k | 0 <= k < |here|
      ensures Names(lines, here[k].line)
    {
      assert here[k].line == lines[0].id;
    }
  }

  lemma {:induction false} ResolvedDraws(lines: Lines, mappings: seq<MappingParts>, available: map<Id, PoolSnapshot>,
                                         explicit: Option<seq<Claim>>, draws: seq<Allocation>)
    requires |lines| == |mappings| && DistinctBy(lines, Agreements.LineId)
    requires ResolveLines(lines, mappings, available, explicit) == Ok(draws)
    ensures DrawsOf(available, lines, draws)
    ensures |draws| == if explicit.None? then |lines| else SumBy(explicit.value, OnLines(lines))
    decreases |lines|
  {
    if lines == [] {
      if explicit.Some? {
        NoLines(explicit.value);
      }
    } else {
      var here := ResolveLine(lines[0], mappings[0], available, explicit).value;
      var rest := ResolveLines(lines[1..], mappings[1..], available, explicit).value;
      TailDistinct(lines);
      ResolvedDraws(lines[1..], mappings[1..], available, explicit, rest);
      ResolvedLine(lines[0], mappings[0], available, explicit, here);
      DrawsJoin(available, lines, here, rest);
      if explicit.Some? {
        CountFor(explicit.value, lines[0].id);
        CountSplits(explicit.value, lines);
      }
    }
  }

  lemma {:induction false} NoLines(claims: seq<Claim>)
    ensures SumBy(claims, OnLines([])) == 0
  {
    if claims != [] {
      NoLines(claims[1..]);
    }
  }

  /** The draws of the first line, and those of the others. */
  lemma {:induction false} HeadAndTail(lines: Lines, mappings: seq<MappingParts>, available: map<Id, PoolSnapshot>,
                                       explicit: Option<seq<Claim>>, draws: seq<Allocation>)
    returns (here: seq<Allocation>, rest: seq<Allocation>)
    requires |lines| == |mappings| && lines != [] && DistinctBy(lines, Agreements.LineId)
    requires ResolveLines(lines, mappings, available, explicit) == Ok(draws)
    ensures draws == here + rest && DistinctBy(lines[1..], Agreements.LineId)
    ensures ResolveLine(lines[0], mappings[0], available, explicit) == Ok(here)
    ensures ResolveLines(lines[1..], mappings[1..], available, explicit) == Ok(rest)
    ensures forall k :: 0 <= k < |here| ==> here[k].line == lines[0].id
    ensures forall k :: 0 <= k < |rest| ==> rest[k].line != lines[0].id
  {
    here := ResolveLine(lines[0], mappings[0], available, explicit).value;
    rest := ResolveLines(lines[1..], mappings[1..], available, explicit).value;
    TailDistinct(lines);
    ResolvedDraws(lines[1..], mappings[1..], available, explicit, rest);
    ResolvedLine(lines[0], mappings[0], available, explicit, here);
    DrawsJoin(available, lines, here, rest);
  }

  /** The draws of line `i`, over all its pools and in whatever units, are worth exactly its requirement. */
  lemma {:induction false} ResolvedCovers(lines: Lines, mappings: seq<MappingParts>, available: map<Id, PoolSnapshot>,
                                          explicit: Option<seq<Claim>>, draws: seq<Allocation>, i: nat)
    requires |lines| == |mappings| && DistinctBy(lines, Agreements.LineId) && i < |lines|
    requires ResolveLines(lines, mappings, available, explicit) == Ok(draws)
    ensures LineDraw(lines[i], mappings[i], available).Ok?
    ensures SumBy(draws, LinePhysical(available, lines[i].id))
         == PhysicalTicks(mappings[i].unit, LineDraw(lines[i], mappings[i], available).value)
    decreases |lines|
  {
    var here, rest := HeadAndTail(lines, mappings, available, explicit, draws);
    SumByConcat(here, rest, LinePhysical(available, lines[i].id));
    if i == 0 {
      ResolvedLine(lines[0], mappings[0], available, explicit, here);
      OtherLines(available, lines[0].id, rest);
    } else {
      ResolvedCovers(lines[1..], mappings[1..], available, explicit, rest, i - 1);
      assert Agreements.LineId(lines[0]) != Agreements.LineId(lines[i]);
      OtherLines(available, lines[i].id, here);
    }
  }

  /** Every claim on one of the lines is drawn as stated. */
  lemma {:induction false} ResolvedClaims(lines: Lines, mappings: seq<MappingParts>, available: map<Id, PoolSnapshot>,
                                          claims: seq<Claim>, draws: seq<Allocation>, c: Claim)
    requires |lines| == |mappings| && c in claims && Names(lines, c.line)
    requires ResolveLines(lines, mappings, available, Some(claims)) == Ok(draws)
    ensures c.pool in available && TicksIn(available[c.pool].unit, c.quantity).Ok? && ClaimDraw(available, c) in draws
    decreases |lines|
  {
    var here := ResolveLine(lines[0], mappings[0], available, Some(claims)).value;
    var rest := ResolveLines(lines[1..], mappings[1..], available, Some(claims)).value;
    if c.line == lines[0].id {
      ResolvedLine(lines[0], mappings[0], available, Some(claims), here);
      ClaimsForLine(claims, lines[0].id);
      assert c in ClaimsFor(claims, lines[0].id);
    } else {
      var i :| 0 <= i < |lines| && lines[i].id == c.line;
      assert lines[1..][i - 1].id == c.line;
      ResolvedClaims(lines[1..], mappings[1..], available, claims, rest, c);
    }
  }

  predicate LineResolves(lines: Lines, mappings: seq<MappingParts>, available: map<Id, PoolSnapshot>,
                         explicit: Option<seq<Claim>>, i: nat)
    requires |lines| == |mappings| && i < |lines|
  {
    ResolveLine(lines[i], mappings[i], available, explicit).Ok?
  }

  lemma {:induction false} ResolveLinesExact(lines: Lines, mappings: seq<MappingParts>, available: map<Id, PoolSnapshot>,
                                             explicit: Option<seq<Claim>>)
    requires |lines| == |mappings|
    ensures ResolveLines(lines, mappings, available, explicit).Ok? <==>
              forall i :: 0 <= i < |lines| ==> LineResolves(lines, mappings, available, explicit, i)
    decreases |lines|
  {
    if lines != [] {
      ResolveLinesExact(lines[1..], mappings[1..], available, explicit);
      assert forall i :: 0 < i < |lines| ==>
        (LineResolves(lines, mappings, available, explicit, i)
         <==> LineResolves(lines[1..], mappings[1..], available, explicit, i - 1));
      if ResolveLines(lines[1..], mappings[1..], available, explicit).Err? {
        var j :| 0 <= j < |lines[1..]| && !LineResolves(lines[1..], mappings[1..], available, explicit, j);
        assert !LineResolves(lines, mappings, available, explicit, j + 1);
      }
      assert LineResolves(lines, mappings, available, explicit, 0)
        <==> ResolveLine(lines[0], mappings[0], available, explicit).Ok?;
    }
  }

  // ----- complete resolution

  lemma {:induction false} InsertKeeps(a: Allocation, s: seq<Allocation>)
    ensures multiset(Insert(a, s)) == multiset(s) + multiset{a}
  {
    if s != [] && AllocationLess(s[0], a) {
      InsertKeeps(a, s[1..]);
      assert s == [s[0]] + s[1..];
    }
  }

  ghost predicate SortedDraws(s: seq<Allocation>) {
    forall i, j :: 0 <= i < j < |s| ==> !AllocationLess(s[j], s[i])
  }

  lemma {:induction false} InsertSorted(a: Allocation, s: seq<Allocation>)
    requires SortedDraws(s)
    ensures SortedDraws(Insert(a, s))
  {
    if s != [] && AllocationLess(s[0], a) {
      InsertSorted(a, s[1..]);
      InsertKeeps(a, s[1..]);
      var r := Insert(a, s[1..]);
      forall j | 0 <= j < |r|
        ensures !AllocationLess(r[j], s[0])
      {
        assert r[j] in multiset(r);
        assert r[j] == a || r[j] in s[1..];
      }
    }
  }

  lemma {:induction false} SortAllocationsExact(s: seq<Allocation>)
    ensures SortedDraws(SortAllocations(s)) && multiset(SortAllocations(s)) == multiset(s)
  {
    if s != [] {
      SortAllocationsExact(s[1..]);
      InsertSorted(s[0], SortAllocations(s[1..]));
      InsertKeeps(s[0], SortAllocations(s[1..]));
      assert s == [s[0]] + s[1..];
    }
  }

  /** No pool is observed twice, and each has been written at least once. */
  ghost predicate ObservedOnce(pools: seq<PoolSnapshot>) {
    && (forall i :: 0 <= i < |pools| ==> pools[i].version > 0)
    && (forall i, j :: 0 <= i < j < |pools| ==> pools[i].id != pools[j].id)
  }

  /** No line claims the same pool twice. */
  ghost predicate ClaimedOnce(claims: seq<Claim>) {
    forall i, j :: 0 <= i < j < |claims| && claims[i].line == claims[j].line ==> claims[i].pool != claims[j].pool
  }

  lemma InputsAdmitted(pools: seq<PoolSnapshot>, explicit: Option<seq<Claim>>)
    ensures PoolsAdmitted(pools) <==> ObservedOnce(pools)
    ensures ClaimsAdmitted(explicit) <==> (explicit.Some? ==> 1 <= |explicit.value| <= 64 && ClaimedOnce(explicit.value))
  {
    if explicit.Some? {
      assert PairsDistinct(explicit.value) <==> ClaimedOnce(explicit.value);
    }
  }

  /** The draw of a line is known and, with explicit claims, covered exactly. */
  ghost predicate LineCovered(line: Agreements.AgreementLine, m: MappingParts, available: map<Id, PoolSnapshot>,
                              explicit: Option<seq<Claim>>)
  {
    && LineDraw(line, m, available).Ok?
    && (explicit.Some? ==> LineClaimed(line.id, m, available, explicit.value, LineDraw(line, m, available).value))
  }

  ghost predicate LinesCovered(lines: Lines, mappings: seq<MappingParts>, available: map<Id, PoolSnapshot>,
                               explicit: Option<seq<Claim>>)
    requires |lines| == |mappings|
  {
    forall i :: 0 <= i < |lines| ==> LineCovered(lines[i], mappings[i], available, explicit)
  }

  lemma {:induction false} LinesResolveExactly(lines: Lines, mappings: seq<MappingParts>, available: map<Id, PoolSnapshot>,
                                               explicit: Option<seq<Claim>>)
    requires |lines| == |mappings|
    ensures ResolveLines(lines, mappings, available, explicit).Ok? <==> LinesCovered(lines, mappings, available, explicit)
  {
    ResolveLinesExact(lines, mappings, available, explicit);
    forall i | 0 <= i < |lines|
      ensures LineResolves(lines, mappings, available, explicit, i) <==> LineCovered(lines[i], mappings[i], available, explicit)
    {
      ResolveLineExact(lines[i], mappings[i], available, explicit);
    }
  }

  /** Everything a stock-backed resolution demands, with no order of checking. */
  ghost predicate Resolvable(t: Agreements.Terms, mappings: seq<MappingParts>, pools: seq<PoolSnapshot>,
                             explicit: Option<seq<Claim>>)
  {
    && |mappings| == |t.lines| && |pools| <= 96 && ObservedOnce(pools)
    && (explicit.Some? ==> 1 <= |explicit.value| <= 64 && ClaimedOnce(explicit.value))
    && LinesCovered(t.lines, mappings, Index(pools), explicit)
    && (explicit.None? ==> 1 <= |t.lines| <= 64)
    && (explicit.Some? ==> forall c | c in explicit.value :: Names(t.lines, c.line))
  }

  /** All claims are on lines exactly when their count says so. */
  lemma {:induction false} AllOnLines(claims: seq<Claim>, lines: Lines)
    ensures SumBy(claims, OnLines(lines)) <= |claims|
    ensures SumBy(claims, OnLines(lines)) == |claims| <==> forall c | c in claims :: Names(lines, c.line)
  {
    if claims != [] {
      AllOnLines(claims[1..], lines);
      assert claims == [claims[0]] + claims[1..];
    }
  }

  /** Stock-backed terms resolve exactly when every line's mapping and draw are current and exact and, with
      explicit claims, each line's claims are usable and worth exactly its draw and no claim is left over. */
  lemma {:induction false} ResolvesExactly(t: Agreements.Terms, mappings: seq<MappingParts>, pools: seq<PoolSnapshot>,
                                           explicit: Option<seq<Claim>>)
    requires t.supply.StockBacked? && DistinctBy(t.lines, Agreements.LineId)
    ensures Resolve(t, mappings, pools, explicit).Ok? <==> Resolvable(t, mappings, pools, explicit)
  {
    InputsAdmitted(pools, explicit);
    if |mappings| == |t.lines| && |pools| <= MAX_POOLS && PoolsAdmitted(pools) && ClaimsAdmitted(explicit) {
      var available := Index(pools);
      LinesResolveExactly(t.lines, mappings, available, explicit);
      var result := ResolveLines(t.lines, mappings, available, explicit);
      if result.Ok? {
        ResolvedDraws(t.lines, mappings, available, explicit, result.value);
        if explicit.Some? {
          AllOnLines(explicit.value, t.lines);
        }
      }
    }
  }

  /** Every resolved line is covered exactly: its allocations are worth, over all pools and units together,
      precisely the ticks it must draw. */
  lemma {:induction false} LineCoveredExactly(t: Agreements.Terms, mappings: seq<MappingParts>, pools: seq<PoolSnapshot>,
                                              explicit: Option<seq<Claim>>, result: seq<Allocation>, i: nat)
    requires t.supply.StockBacked? && DistinctBy(t.lines, Agreements.LineId) && i < |t.lines|
    requires Resolve(t, mappings, pools, explicit) == Ok(result)
    ensures |mappings| == |t.lines| && LineDraw(t.lines[i], mappings[i], Index(pools)).Ok?
    ensures SumBy(result, LinePhysical(Index(pools), t.lines[i].id))
         == PhysicalTicks(mappings[i].unit, LineDraw(t.lines[i], mappings[i], Index(pools)).value)
  {
    var draws := ResolveLines(t.lines, mappings, Index(pools), explicit).value;
    ResolvedCovers(t.lines, mappings, Index(pools), explicit, draws, i);
    SortAllocationsExact(draws);
    SumByPermutation(result, draws, LinePhysical(Index(pools), t.lines[i].id));
  }

  /** Every resolved line is covered for exactly its physical requirement, and a line of variable weight for every
      measurement it can be priced at. */
  lemma {:induction false} LineWorthCovered(t: Agreements.Terms, mappings: seq<MappingParts>, pools: seq<PoolSnapshot>,
                                            explicit: Option<seq<Claim>>, result: seq<Allocation>, i: nat)
    requires t.supply.StockBacked? && DistinctBy(t.lines, Agreements.LineId) && i < |t.lines| == |mappings|
    requires ValidMapping(mappings[i]) && Resolve(t, mappings, pools, explicit) == Ok(result)
    ensures MappingFits(t.lines[i], mappings[i], Index(pools))
    ensures var covered := SumBy(result, LinePhysical(Index(pools), t.lines[i].id));
            && covered > 0 && WorthOf(t.lines[i], mappings[i], covered)
            && (t.lines[i].price.AgreedVariable? ==>
                  forall q: Quantity | TotalAt(t.lines[i].price.weight, q).Ok? :: PhysicalMicro(q) <= covered)
  {
    var line, m := t.lines[i], mappings[i];
    LineCoveredExactly(t, mappings, pools, explicit, result, i);
    var ticks := LineDraw(line, m, Index(pools)).value;
    LineDrawExact(line, m, Index(pools), ticks);
    PhysicalTicksLeq(m.unit, ticks, 0);
    ScaledZero(6 - m.unit.scale);
    if line.price.AgreedVariable? {
      forall q: Quantity | TotalAt(line.price.weight, q).Ok?
        ensures PhysicalMicro(q) <= PhysicalTicks(m.unit, ticks)
      {
        CmpIsRational(q.amount, line.price.weight.maximum);
      }
    }
  }

  /** Every explicit claim is drawn from the pool it names, in that pool's own ticks, and nothing else is. */
  lemma {:induction false} ClaimsDrawn(t: Agreements.Terms, mappings: seq<MappingParts>, pools: seq<PoolSnapshot>,
                                       claims: seq<Claim>, result: seq<Allocation>, c: Claim)
    requires t.supply.StockBacked? && DistinctBy(t.lines, Agreements.LineId) && c in claims
    requires Resolve(t, mappings, pools, Some(claims)) == Ok(result)
    ensures |result| == |claims|
    ensures c.pool in Index(pools) && TicksIn(Index(pools)[c.pool].unit, c.quantity).Ok?
    ensures ClaimDraw(Index(pools), c) in result
  {
    var available := Index(pools);
    var draws := ResolveLines(t.lines, mappings, available, Some(claims)).value;
    ResolvedDraws(t.lines, mappings, available, Some(claims), draws);
    AllOnLines(claims, t.lines);
    ResolvedClaims(t.lines, mappings, available, claims, draws, c);
    SortAllocationsExact(draws);
    PermutationMembers(result, draws);
  }

  // ----- totals and holds

  /** What an allocation adds to the total of a pool. */
  function InPool(pool: Id): Allocation -> int {
    (a: Allocation) => if a.pool == pool then a.ticks else 0
  }

  lemma {:induction false} InPoolNonnegative(result: seq<Allocation>, pool: Id)
    ensures SumBy(result, InPool(pool)) >= 0
  {
    if result != [] {
      InPoolNonnegative(result[1..], pool);
    }
  }

  function Running(totals: map<Id, StockTicks>, pool: Id): nat {
    if pool in totals then totals[pool] else 0
  }

  predicate Draws(result: seq<Allocation>, pool: Id) {
    exists i :: 0 <= i < |result| && result[i].pool == pool
  }

  /** The running totals are exact, and fail exactly when some pool's total is out of range. */
  lemma {:induction false} TotalsExact(totals: map<Id, StockTicks>, result: seq<Allocation>)
    ensures Totals(totals, result).Ok? <==>
              forall pool | pool in totals || Draws(result, pool) ::
                Running(totals, pool) + SumBy(result, InPool(pool)) <= MAX_TICKS
    ensures Totals(totals, result).Ok? ==>
              var m := Totals(totals, result).value;
              && (forall pool :: pool in m <==> pool in totals || Draws(result, pool))
              && (forall pool | pool in m :: m[pool] == Running(totals, pool) + SumBy(result, InPool(pool)))
    decreases |result|
  {
    if result != [] {
      var a := result[0];
      InPoolNonnegative(result[1..], a.pool);
      assert Draws(result, a.pool);
      forall pool: Id
        ensures Draws(result, pool) <==> pool == a.pool || Draws(result[1..], pool)
      {
        DrawsSplits(result, pool);
      }
      if AddToTotal(totals, a).Ok? {
        var next := AddToTotal(totals, a).value;
        TotalsExact(next, result[1..]);
        assert forall pool: Id :: Running(next, pool) == Running(totals, pool) + InPool(pool)(a);
      }
    }
  }

  lemma DrawsSplits(result: seq<Allocation>, pool: Id)
    requires result != []
    ensures Draws(result, pool) <==> pool == result[0].pool || Draws(result[1..], pool)
  {
    if i :| 0 < i < |result| && result[i].pool == pool {
      assert result[1..][i - 1].pool == pool;
    }
    if j :| 0 <= j < |result[1..]| && result[1..][j].pool == pool {
      assert result[j + 1].pool == pool;
    }
  }

  /** What one hold proposes: the quantity moves from available to preparatory, one version on. */
  ghost predicate Proposes(before: PoolSnapshot, quantity: int, hold: Hold) {
    && hold.before == before && hold.quantity == quantity
    && hold.after.id == before.id && hold.after.unit == before.unit && hold.after.version == before.version + 1
    && hold.after.balances.introduced == before.balances.introduced
    && Transferred(before.balances.physical, Available, Preparatory, quantity, hold.after.balances.physical)
  }

  predicate Holdable(before: PoolSnapshot, quantity: StockTicks) {
    before.version > 0 && 0 < quantity <= before.balances.physical.available && before.version < MAX_SEQUENCE
  }

  lemma {:induction false} NewHoldExact(before: PoolSnapshot, quantity: StockTicks)
    ensures NewHold(before, quantity).Ok? <==> Holdable(before, quantity)
    ensures NewHold(before, quantity).Ok? ==> Proposes(before, quantity, NewHold(before, quantity).value)
  {
    MoveExact(before.balances, Available, Preparatory, quantity);
  }

  lemma {:induction false} HoldsExact(ids: seq<Id>, totals: map<Id, StockTicks>, available: map<Id, PoolSnapshot>)
    requires Known(ids, totals, available)
    ensures Holds(ids, totals, available).Ok? <==>
              forall i :: 0 <= i < |ids| ==> Holdable(available[ids[i]], totals[ids[i]])
    decreases |ids|
  {
    if ids != [] {
      NewHoldExact(available[ids[0]], totals[ids[0]]);
      HoldsExact(ids[1..], totals, available);
      assert forall i :: 0 < i < |ids| ==> ids[i] == ids[1..][i - 1];
    }
  }

  lemma {:induction false} HoldsPropose(ids: seq<Id>, totals: map<Id, StockTicks>, available: map<Id, PoolSnapshot>,
                                        holds: seq<Hold>)
    requires Known(ids, totals, available) && Holds(ids, totals, available) == Ok(holds)
    ensures |holds| == |ids|
    ensures forall i :: 0 <= i < |ids| ==> Proposes(available[ids[i]], totals[ids[i]], holds[i])
    decreases |ids|
  {
    if ids != [] {
      NewHoldExact(available[ids[0]], totals[ids[0]]);
      HoldsPropose(ids[1..], totals, available, holds[1..]);
      assert forall i :: 0 < i < |ids| ==> ids[i] == ids[1..][i - 1] && holds[i] == holds[1..][i - 1];
    }
  }

  lemma {:induction false} IndexExact(pools: seq<PoolSnapshot>)
    ensures forall id :: id in Index(pools) <==> exists i :: 0 <= i < |pools| && pools[i].id == id
    ensures forall id | id in Index(pools) :: Index(pools)[id].id == id && Index(pools)[id] in pools
  {
    if pools != [] {
      var init, last := pools[..|pools| - 1], pools[|pools| - 1];
      IndexExact(init);
      assert pools == init + [last];
      forall id: Id
        ensures id in Index(pools) <==> exists i :: 0 <= i < |pools| && pools[i].id == id
      {
        if i :| 0 <= i < |init| && init[i].id == id {
          assert pools[i].id == id;
        }
        if i :| 0 <= i < |pools| && pools[i].id == id {
          assert i < |init| ==> init[i].id == id;
          assert i == |init| ==> id == last.id;
        }
        assert id == last.id ==> pools[|init|].id == id;
      }
    }
  }

  /** Every draw is positive and from an observed pool. */
  lemma {:induction false} ResolvedPools(lines: Lines, mappings: seq<MappingParts>, available: map<Id, PoolSnapshot>,
                                         explicit: Option<seq<Claim>>, draws: seq<Allocation>)
    requires |lines| == |mappings| && ResolveLines(lines, mappings, available, explicit) == Ok(draws)
    ensures forall a | a in draws :: a.pool in available && a.ticks > 0
    decreases |lines|
  {
    if lines != [] {
      var here := ResolveLine(lines[0], mappings[0], available, explicit).value;
      var rest := ResolveLines(lines[1..], mappings[1..], available, explicit).value;
      ResolvedLine(lines[0], mappings[0], available, explicit, here);
      ResolvedPools(lines[1..], mappings[1..], available, explicit, rest);
      assert forall a | a in here :: GoodDraw(available, lines[0].id, a);
    }
  }

  lemma {:induction false} PoolIdsDrawn(result: seq<Allocation>)
    ensures forall pool :: pool in SortDedup(PoolIds(result)) <==> Draws(result, pool)
    ensures StrictlySorted(SortDedup(PoolIds(result)), NatLess)
  {
    var ids := PoolIds(result);
    SortDedupExact(ids);
    forall pool: Id
      ensures pool in ids <==> Draws(result, pool)
    {
      if pool in ids {
        var i :| 0 <= i < |ids| && ids[i] == pool;
        assert result[i].pool == pool;
      }
      if i :| 0 <= i < |result| && result[i].pool == pool {
        assert ids[i] == pool;
      }
    }
  }

  /** The pools of a resolution are observed, at a positive version, with positive totals. */
  lemma {:induction false} DrawnPools(t: Agreements.Terms, mappings: seq<MappingParts>, pools: seq<PoolSnapshot>,
                                      explicit: Option<seq<Claim>>, result: seq<Allocation>)
    requires Resolve(t, mappings, pools, explicit) == Ok(result)
    ensures forall pool | Draws(result, pool) ::
              pool in Index(pools) && Index(pools)[pool].version > 0 && SumBy(result, InPool(pool)) > 0
  {
    if t.supply.StockBacked? {
      var draws := ResolveLines(t.lines, mappings, Index(pools), explicit).value;
      ResolvedPools(t.lines, mappings, Index(pools), explicit, draws);
      SortAllocationsExact(draws);
      PermutationMembers(result, draws);
      IndexExact(pools);
      forall pool | Draws(result, pool)
        ensures pool in Index(pools) && Index(pools)[pool].version > 0 && SumBy(result, InPool(pool)) > 0
      {
        var i :| 0 <= i < |result| && result[i].pool == pool;
        assert result[i] in draws;
        SumByWithout(result, i, InPool(pool));
        InPoolNonnegative(Without(result, i), pool);
        assert Index(pools)[pool] in pools;
      }
    }
  }

  datatype PlanParts = PlanParts(allocations: seq<Allocation>, holds: seq<Hold>)

  /** The holds of resolved allocations: one per drawn pool, ascending, for the pool's whole total. */
  function PlanHolds(result: seq<Allocation>, available: map<Id, PoolSnapshot>): Result<seq<Hold>, AllocationError>
    requires forall pool | Draws(result, pool) :: pool in available
  {
    var totals :- Totals(map[], result);
    PlanKeys(result, totals, available);
    Holds(SortDedup(PoolIds(result)), totals, available)
  }

  function Plan(t: Agreements.Terms, mappings: seq<MappingParts>, pools: seq<PoolSnapshot>,
                explicit: Option<seq<Claim>>): Result<PlanParts, AllocationError>
  {
    var result :- Resolve(t, mappings, pools, explicit);
    DrawnPools(t, mappings, pools, explicit, result);
    var holds :- PlanHolds(result, Index(pools));
    Ok(PlanParts(result, holds))
  }

  /** The stock a plan needs from a pool is available there, and its version can still advance. */
  predicate Sufficient(result: seq<Allocation>, pool: Id, p: PoolSnapshot) {
    SumBy(result, InPool(pool)) <= p.balances.physical.available && p.version < MAX_SEQUENCE
  }

  /** Each pool of a list is held for its total. */
  ghost predicate HeldFor(result: seq<Allocation>, ids: seq<Id>, available: map<Id, PoolSnapshot>, holds: seq<Hold>) {
    && |holds| == |ids|
    && forall i :: 0 <= i < |ids| ==>
         ids[i] in available && Proposes(available[ids[i]], SumBy(result, InPool(ids[i])), holds[i])
  }

  /** The totals are those of the drawn pools. */
  ghost predicate TotalsOf(result: seq<Allocation>, totals: map<Id, StockTicks>) {
    && (forall pool :: pool in totals <==> Draws(result, pool))
    && (forall pool | pool in totals :: totals[pool] == SumBy(result, InPool(pool)))
  }

  lemma {:induction false} HoldsOfTotals(result: seq<Allocation>, ids: seq<Id>, totals: map<Id, StockTicks>,
                                         available: map<Id, PoolSnapshot>)
    requires TotalsOf(result, totals) && forall pool :: pool in ids <==> Draws(result, pool)
    requires Known(ids, totals, available)
    requires forall pool | Draws(result, pool) ::
               pool in available && available[pool].version > 0 && SumBy(result, InPool(pool)) > 0
    ensures Holds(ids, totals, available).Ok? <==>
              forall pool | Draws(result, pool) :: Sufficient(result, pool, available[pool])
    ensures Holds(ids, totals, available).Ok? ==> HeldFor(result, ids, available, Holds(ids, totals, available).value)
  {
    HoldsExact(ids, totals, available);
    forall i | 0 <= i < |ids|
      ensures Holdable(available[ids[i]], totals[ids[i]]) <==> Sufficient(result, ids[i], available[ids[i]])
    {
      assert ids[i] in ids;
    }
    if Holds(ids, totals, available).Ok? {
      HoldsPropose(ids, totals, available, Holds(ids, totals, available).value);
      forall pool | Draws(result, pool)
        ensures Sufficient(result, pool, available[pool])
      {
        var i :| 0 <= i < |ids| && ids[i] == pool;
        assert Holdable(available[ids[i]], totals[ids[i]]);
      }
    }
  }

  lemma {:induction false} PlanHoldsExact(result: seq<Allocation>, available: map<Id, PoolSnapshot>)
    requires forall pool | Draws(result, pool) ::
               pool in available && available[pool].version > 0 && SumBy(result, InPool(pool)) > 0
    ensures PlanHolds(result, available).Ok? <==> forall pool | Draws(result, pool) :: Sufficient(result, pool, available[pool])
    ensures PlanHolds(result, available).Ok? ==>
              HeldFor(result, SortDedup(PoolIds(result)), available, PlanHolds(result, available).value)
  {
    var ids := SortDedup(PoolIds(result));
    TotalsExact(map[], result);
    PoolIdsDrawn(result);
    if Totals(map[], result).Ok? {
      var totals := Totals(map[], result).value;
      assert TotalsOf(result, totals);
      assert forall i :: 0 <= i < |ids| ==> ids[i] in ids;
      HoldsOfTotals(result, ids, totals, available);
    } else {
      var pool :| Draws(result, pool) && SumBy(result, InPool(pool)) > MAX_TICKS;
      assert !Sufficient(result, pool, available[pool]);
    }
  }

  /** A plan exists exactly when the terms resolve and every drawn pool has its total available. */
  lemma {:induction false} PlanSucceedsExactly(t: Agreements.Terms, mappings: seq<MappingParts>, pools: seq<PoolSnapshot>,
                                               explicit: Option<seq<Claim>>)
    ensures Plan(t, mappings, pools, explicit).Ok? <==>
              && Resolve(t, mappings, pools, explicit).Ok?
              && var result := Resolve(t, mappings, pools, explicit).value;
                 forall pool | Draws(result, pool) :: pool in Index(pools) && Sufficient(result, pool, Index(pools)[pool])
  {
    if Resolve(t, mappings, pools, explicit).Ok? {
      var result := Resolve(t, mappings, pools, explicit).value;
      DrawnPools(t, mappings, pools, explicit, result);
      PlanHoldsExact(result, Index(pools));
    }
  }

  /** The holds are for exactly the drawn pools, ascending and once each, each for the sum of its allocations,
      moved from available to preparatory one version on and nothing else changed. */
  ghost predicate HoldsDrawn(result: seq<Allocation>, pools: seq<PoolSnapshot>, holds: seq<Hold>) {
    && (forall i, j :: 0 <= i < j < |holds| ==> holds[i].before.id < holds[j].before.id)
    && (forall pool :: Draws(result, pool) <==> exists i :: 0 <= i < |holds| && holds[i].before.id == pool)
    && (forall i :: 0 <= i < |holds| ==>
          holds[i].before in pools
          && Proposes(holds[i].before, SumBy(result, InPool(holds[i].before.id)), holds[i]))
  }

  lemma {:induction false} HeldIsDrawn(result: seq<Allocation>, ids: seq<Id>, pools: seq<PoolSnapshot>, holds: seq<Hold>)
    requires HeldFor(result, ids, Index(pools), holds) && StrictlySorted(ids, NatLess)
    requires forall pool :: pool in ids <==> Draws(result, pool)
    ensures HoldsDrawn(result, pools, holds)
  {
    IndexExact(pools);
    forall i | 0 <= i < |ids|
      ensures holds[i].before.id == ids[i] && holds[i].before in pools
    {
      assert Proposes(Index(pools)[ids[i]], SumBy(result, InPool(ids[i])), holds[i]);
    }
    forall pool: Id
      ensures Draws(result, pool) <==> exists i :: 0 <= i < |holds| && holds[i].before.id == pool
    {
      if Draws(result, pool) {
        var i :| 0 <= i < |ids| && ids[i] == pool;
        assert holds[i].before.id == pool;
      }
      if i :| 0 <= i < |holds| && holds[i].before.id == pool {
        assert ids[i] in ids;
      }
    }
    assert forall i, j :: 0 <= i < j < |ids| ==> NatLess(ids[i], ids[j]);
  }

  /** Every plan carries its resolution and holds exactly what the resolution draws. */
  lemma {:induction false} PlanHoldsTotals(t: Agreements.Terms, mappings: seq<MappingParts>, pools: seq<PoolSnapshot>,
                                           explicit: Option<seq<Claim>>, plan: PlanParts)
    requires Plan(t, mappings, pools, explicit) == Ok(plan)
    ensures Resolve(t, mappings, pools, explicit) == Ok(plan.allocations)
    ensures HoldsDrawn(plan.allocations, pools, plan.holds)
  {
    var result := plan.allocations;
    DrawnPools(t, mappings, pools, explicit, result);
    PlanHoldsExact(result, Index(pools));
    PoolIdsDrawn(result);
    HeldIsDrawn(result, SortDedup(PoolIds(result)), pools, plan.holds);
  }

  method SumTotals(result: seq<Allocation>) returns (r: Result<map<Id, StockTicks>, AllocationError>)
    ensures r == Totals(map[], result)
  {
    var totals: map<Id, StockTicks> := map[];
    assert result[0..] == result;
    for k := 0 to |result|
      invariant Totals(map[], result) == Totals(totals, result[k..])
    {
      assert result[k..][1..] == result[k + 1..];
      totals :- AddToTotal(totals, result[k]);
    }
    return Ok(totals);
  }

  method HoldAll(ids: seq<Id>, totals: map<Id, StockTicks>, available: map<Id, PoolSnapshot>)
    returns (r: Result<seq<Hold>, AllocationError>)
    requires Known(ids, totals, available)
    ensures r == Holds(ids, totals, available)
  {
    var holds: seq<Hold> := [];
    AfterNoHold(ids, totals, available);
    for k := 0 to |ids|
      invariant Holds(ids, totals, available) == AfterHolds(holds, Holds(ids[k..], totals, available))
    {
      assert ids[k..][1..] == ids[k + 1..];
      var hold :- NewHold(available[ids[k]], totals[ids[k]]);
      AfterHold(holds, hold, Holds(ids[k + 1..], totals, available));
      holds := holds + [hold];
    }
    assert ids[|ids|..] == [] && holds + [] == holds;
    return Ok(holds);
  }

  method PlanAllocations(t: Agreements.Terms, mappings: seq<MappingParts>, pools: seq<PoolSnapshot>,
                         explicit: Option<seq<Claim>>)
    returns (r: Result<PlanParts, AllocationError>)
    ensures r == Plan(t, mappings, pools, explicit)
  {
    var result :- ResolveAllocations(t, mappings, pools, explicit);
    DrawnPools(t, mappings, pools, explicit, result);
    var totals :- SumTotals(result);
    PlanKeys(result, totals, Index(pools));
    var holds :- HoldAll(SortDedup(PoolIds(result)), totals, Index(pools));
    return Ok(PlanParts(result, holds));
  }

  lemma PlanKeys(result: seq<Allocation>, totals: map<Id, StockTicks>, available: map<Id, PoolSnapshot>)
    requires Totals(map[], result) == Ok(totals) && forall pool | Draws(result, pool) :: pool in available
    ensures Known(SortDedup(PoolIds(result)), totals, available)
  {
    var ids := SortDedup(PoolIds(result));
    TotalsExact(map[], result);
    PoolIdsDrawn(result);
    assert forall i :: 0 <= i < |ids| ==> ids[i] in ids;
  }

  lemma AfterNoHold(ids: seq<Id>, totals: map<Id, StockTicks>, available: map<Id, PoolSnapshot>)
    requires Known(ids, totals, available)
    ensures Holds(ids, totals, available) == AfterHolds([], Holds(ids[0..], totals, available))
  {
    assert ids[0..] == ids;
    var all := Holds(ids, totals, available);
    if all.Ok? {
      assert [] + all.value == all.value;
    }
  }

  function AfterHolds(holds: seq<Hold>, rest: Result<seq<Hold>, AllocationError>): Result<seq<Hold>, AllocationError> {
    if rest.Err? then rest else Ok(holds + rest.value)
  }

  lemma AfterHold(holds: seq<Hold>, hold: Hold, rest: Result<seq<Hold>, AllocationError>)
    ensures AfterHolds(holds, if rest.Err? then rest else Ok([hold] + rest.value)) == AfterHolds(holds + [hold], rest)
  {
    if rest.Ok? {
      assert holds + ([hold] + rest.value) == holds + [hold] + rest.value;
    }
  }
}
