/** The seven-category physical stock ledger of crates/domain/src/stock.rs and stock/movements.rs. */
module Stock {
  import opened Amount
  import opened Arithmetic
  import opened Digits
  import opened Quantities
  import opened Results
  import opened Sequences

  const MAX_TICKS: nat := 1_000_000_000_000_000_000

  type StockTicks = n: nat | n <= MAX_TICKS

  datatype StockError =
    | OutOfRange
    | Underflow
    | PoolUnitMismatch
    | TickPrecisionLoss
    | ConservationViolation
    | ZeroMovement

  function NewTicks(value: nat): Result<StockTicks, StockError> {
    if value > MAX_TICKS then Err(OutOfRange) else Ok(value)
  }

  function AddTicks(a: StockTicks, b: StockTicks): Result<StockTicks, StockError> {
    var sum := CheckedU64(a + b);
    if sum.None? then Err(OutOfRange) else NewTicks(sum.value)
  }

  function SubTicks(a: StockTicks, b: StockTicks): Result<StockTicks, StockError> {
    var difference := CheckedU64(a - b);
    if difference.None? then Err(Underflow) else NewTicks(difference.value)
  }

  // ----- ticks of a declared quantity

  datatype PoolUnit = PoolUnit(unit: MeasurementUnit, scale: nat)

  predicate ValidPoolUnit(u: PoolUnit) {
    u.scale <= 6 && (u.unit == Each ==> u.scale == 0)
  }

  function TicksFor(u: PoolUnit, q: Quantity): Result<StockTicks, StockError> {
    if q.unit != u.unit then Err(PoolUnitMismatch)
    else if u.scale < q.amount.scale then Err(TickPrecisionLoss)
    else
      var ticks := CheckedU64(Scaled(q.amount.coefficient, u.scale - q.amount.scale));
      if ticks.None? then Err(OutOfRange) else NewTicks(ticks.value)
  }

  /** Tick conversion fails only on a unit or precision mismatch, and counts the exact value
      in steps of one pool tick. */
  lemma {:induction false} TicksForExact(u: PoolUnit, q: Quantity)
    requires ValidPoolUnit(u)
    ensures TicksFor(u, q).Ok? <==> q.unit == u.unit && Micro(q.amount) % Pow10(6 - u.scale) == 0
    ensures TicksFor(u, q).Ok? ==> TicksFor(u, q).value * Pow10(6 - u.scale) == Micro(q.amount)
    ensures q.unit != u.unit ==> TicksFor(u, q) == Err(PoolUnitMismatch)
    ensures q.unit == u.unit && TicksFor(u, q).Err? ==> TicksFor(u, q) == Err(TickPrecisionLoss)
  {
    var tick := Pow10(6 - u.scale);
    if q.amount.scale <= u.scale {
      var ticks := Aligned(q.amount, u.scale);
      ScaledProduct(ticks, 6 - u.scale);
      assert q.unit == u.unit ==> TicksFor(u, q) == Ok(ticks);
      DivModUnique(Micro(q.amount), ticks, 0, tick);
    } else if Micro(q.amount) % tick == 0 {
      DivisionIdentity(Micro(q.amount), tick);
      ScaledProduct(Micro(q.amount) / tick, 6 - u.scale);
      CoarserIsMultiple(Parts(Micro(q.amount) / tick, u.scale), q.amount, 6);
    }
  }

  /** Ticks order quantities of one unit strictly, as their values do. */
  lemma {:induction false} TicksForMonotone(u: PoolUnit, a: Quantity, b: Quantity)
    requires ValidPoolUnit(u) && TicksFor(u, a).Ok? && TicksFor(u, b).Ok?
    ensures TicksFor(u, a).value < TicksFor(u, b).value <==> Micro(a.amount) < Micro(b.amount)
  {
    TicksForExact(u, a);
    TicksForExact(u, b);
    ScaledOrder(TicksFor(u, b).value, TicksFor(u, a).value, Pow10(6 - u.scale));
  }

  /** The ticks of a sum are the sum of the ticks; a sum never loses tick precision. */
  lemma {:induction false} TicksForAdditive(u: PoolUnit, a: Quantity, b: Quantity, sum: Quantity, x: StockTicks, y: StockTicks)
    requires ValidPoolUnit(u) && TicksFor(u, a) == Ok(x) && TicksFor(u, b) == Ok(y)
    requires Quantities.CheckedAdd(a, b) == Ok(sum)
    ensures x + y <= MAX_TICKS && TicksFor(u, sum) == Ok(x + y)
  {
    SumMicroOf(a, b, sum);
    TicksValue(u, a, x);
    TicksValue(u, b, y);
    TicksOfSum(u, sum, x, y, Micro(a.amount), Micro(b.amount));
  }

  lemma {:induction false} TicksValue(u: PoolUnit, q: Quantity, ticks: StockTicks)
    requires ValidPoolUnit(u) && TicksFor(u, q) == Ok(ticks)
    ensures q.unit == u.unit && Micro(q.amount) == ticks * Pow10(6 - u.scale)
  {
    TicksForExact(u, q);
  }

  lemma {:induction false} TicksOfSum(u: PoolUnit, sum: Quantity, x: nat, y: nat, a: nat, b: nat)
    requires ValidPoolUnit(u) && sum.unit == u.unit
    requires a == x * Pow10(6 - u.scale) && b == y * Pow10(6 - u.scale) && Micro(sum.amount) == a + b
    ensures x + y <= MAX_TICKS && TicksFor(u, sum) == Ok(x + y)
  {
    Distribute(x, y, Pow10(6 - u.scale));
    TicksOfValue(u, sum, x + y);
  }

  lemma {:induction false} SumMicroOf(a: Quantity, b: Quantity, sum: Quantity)
    requires Quantities.CheckedAdd(a, b) == Ok(sum)
    ensures sum.unit == a.unit == b.unit && Micro(sum.amount) == Micro(a.amount) + Micro(b.amount)
  {
    CheckedAddExact(a.amount, b.amount);
  }

  lemma {:induction false} TicksOfValue(u: PoolUnit, q: Quantity, ticks: nat)
    requires ValidPoolUnit(u) && q.unit == u.unit && Micro(q.amount) == ticks * Pow10(6 - u.scale)
    ensures ticks <= MAX_TICKS && TicksFor(u, q) == Ok(ticks)
  {
    var tick := Pow10(6 - u.scale);
    DivModUnique(Micro(q.amount), ticks, 0, tick);
    TicksForExact(u, q);
    ScaledOrder(TicksFor(u, q).value, ticks, tick);
  }

  // ----- balances

  datatype Category = Available | Preparatory | Committed | Quarantined | Consumed | Waste | Removed

  datatype PhysicalBalances = PhysicalBalances(
    available: StockTicks,
    preparatoryHold: StockTicks,
    committedHold: StockTicks,
    physicalQuarantine: StockTicks,
    consumed: StockTicks,
    waste: StockTicks,
    removed: StockTicks)

  function Get(p: PhysicalBalances, c: Category): StockTicks {
    match c
    case Available => p.available
    case Preparatory => p.preparatoryHold
    case Committed => p.committedHold
    case Quarantined => p.physicalQuarantine
    case Consumed => p.consumed
    case Waste => p.waste
    case Removed => p.removed
  }

  function Put(p: PhysicalBalances, c: Category, ticks: StockTicks): PhysicalBalances {
    PhysicalBalances(
      if c == Available then ticks else p.available,
      if c == Preparatory then ticks else p.preparatoryHold,
      if c == Committed then ticks else p.committedHold,
      if c == Quarantined then ticks else p.physicalQuarantine,
      if c == Consumed then ticks else p.consumed,
      if c == Waste then ticks else p.waste,
      if c == Removed then ticks else p.removed)
  }

  function Total(p: PhysicalBalances): nat {
    p.available + p.preparatoryHold + p.committedHold + p.physicalQuarantine + p.consumed + p.waste + p.removed
  }

  datatype PoolParts = PoolParts(introduced: StockTicks, physical: PhysicalBalances)

  /** The seven disjoint categories account for all introduced stock. */
  type PoolBalances = b: PoolParts | Total(b.physical) == b.introduced
    witness PoolParts(0, PhysicalBalances(0, 0, 0, 0, 0, 0, 0))

  function FoldTicks(total: StockTicks, values: seq<StockTicks>): Result<StockTicks, StockError>
    decreases |values|
  {
    if values == [] then Ok(total)
    else
      var sum := AddTicks(total, values[0]);
      if sum.Err? then Err(sum.error) else FoldTicks(sum.value, values[1..])
  }

  function Values(p: PhysicalBalances): seq<StockTicks> {
    [p.available, p.preparatoryHold, p.committedHold, p.physicalQuarantine, p.consumed, p.waste, p.removed]
  }

  function TickCount(t: StockTicks): int { t }

  lemma {:induction false} FoldTicksExact(total: StockTicks, values: seq<StockTicks>)
    ensures var sum := total + SumBy(values, TickCount);
            && sum >= total
            && FoldTicks(total, values) == if sum <= MAX_TICKS then Ok(sum) else Err(OutOfRange)
    decreases |values|
  {
    if values != [] {
      var sum := total + values[0];
      if sum <= MAX_TICKS {
        FoldTicksExact(sum, values[1..]);
      } else {
        TicksNonNegative(values[1..]);
      }
    }
  }

  lemma {:induction false} TicksNonNegative(values: seq<StockTicks>)
    ensures SumBy(values, TickCount) >= 0
  {
    if values != [] {
      TicksNonNegative(values[1..]);
    }
  }

  function NewBalances(introduced: StockTicks, physical: PhysicalBalances): (r: Result<PoolBalances, StockError>)
    ensures r.Ok? <==> Total(physical) == introduced
    ensures r.Ok? ==> r.value == PoolParts(introduced, physical)
    ensures r == Err(OutOfRange) <==> Total(physical) > MAX_TICKS
    ensures r == Err(ConservationViolation) <==> Total(physical) <= MAX_TICKS && Total(physical) != introduced
  {
    FoldTicksExact(0, Values(physical));
    ValuesSum(physical);
    var sum := FoldTicks(0, Values(physical));
    if sum.Err? then Err(sum.error)
    else if sum.value != introduced then Err(ConservationViolation)
    else Ok(PoolParts(introduced, physical))
  }

  lemma {:induction false} PeelTicks(t: StockTicks, rest: seq<StockTicks>)
    ensures SumBy([t] + rest, TickCount) == t + SumBy(rest, TickCount)
  {
    assert ([t] + rest)[1..] == rest;
  }

  lemma {:induction false} ValuesSum(p: PhysicalBalances)
    ensures SumBy(Values(p), TickCount) == Total(p)
  {
    var ended := [p.consumed, p.waste, p.removed];
    var held := [p.preparatoryHold, p.committedHold, p.physicalQuarantine];
    PeelTicks(p.removed, []);
    PeelTicks(p.waste, [p.removed]);
    PeelTicks(p.consumed, [p.waste] + [p.removed]);
    assert ended == [p.consumed] + ([p.waste] + [p.removed]) && [p.removed] + [] == [p.removed];
    PeelTicks(p.physicalQuarantine, []);
    PeelTicks(p.committedHold, [p.physicalQuarantine]);
    PeelTicks(p.preparatoryHold, [p.committedHold] + [p.physicalQuarantine]);
    assert held == [p.preparatoryHold] + ([p.committedHold] + [p.physicalQuarantine]);
    assert [p.physicalQuarantine] + [] == [p.physicalQuarantine];
    SumByConcat(held, ended, TickCount);
    PeelTicks(p.available, held + ended);
    assert Values(p) == [p.available] + (held + ended);
  }

  lemma {:induction false} GetPut(p: PhysicalBalances, c: Category, ticks: StockTicks, d: Category)
    ensures Get(Put(p, c, ticks), d) == if c == d then ticks else Get(p, d)
  {
    match c
    case Available =>
    case Preparatory =>
    case Committed =>
    case Quarantined =>
    case Consumed =>
    case Waste =>
    case Removed =>
  }

  lemma {:induction false} TotalPut(p: PhysicalBalances, c: Category, ticks: StockTicks)
    ensures Total(Put(p, c, ticks)) == Total(p) - Get(p, c) + ticks
  {
    match c
    case Available =>
    case Preparatory =>
    case Committed =>
    case Quarantined =>
    case Consumed =>
    case Waste =>
    case Removed =>
  }

  /** `r` is `p` with one category set. */
  predicate PutResult(p: PhysicalBalances, c: Category, ticks: StockTicks, r: PhysicalBalances) {
    Total(r) == Total(p) - Get(p, c) + ticks && forall d :: Get(r, d) == if d == c then ticks else Get(p, d)
  }

  lemma {:induction false} PutExact(p: PhysicalBalances, c: Category, ticks: StockTicks)
    ensures PutResult(p, c, ticks, Put(p, c, ticks))
  {
    TotalPut(p, c, ticks);
    forall d
      ensures Get(Put(p, c, ticks), d) == if d == c then ticks else Get(p, d)
    {
      GetPut(p, c, ticks, d);
    }
  }

  // ----- movements, written as the source writes them

  function Take(p: PhysicalBalances, from: Category, quantity: StockTicks): (r: Result<PhysicalBalances, StockError>)
    ensures r.Ok? <==> quantity <= Get(p, from)
    ensures r.Ok? ==> PutResult(p, from, Get(p, from) - quantity, r.value)
  {
    var rest := SubTicks(Get(p, from), quantity);
    if rest.Err? then Err(rest.error)
    else
      PutExact(p, from, rest.value);
      Ok(Put(p, from, rest.value))
  }

  function Give(p: PhysicalBalances, to: Category, quantity: StockTicks): (r: Result<PhysicalBalances, StockError>)
    ensures r.Ok? <==> Get(p, to) + quantity <= MAX_TICKS
    ensures r.Ok? ==> PutResult(p, to, Get(p, to) + quantity, r.value)
  {
    var sum := AddTicks(Get(p, to), quantity);
    if sum.Err? then Err(sum.error)
    else
      PutExact(p, to, sum.value);
      Ok(Put(p, to, sum.value))
  }

  function Move(b: PoolBalances, from: Category, to: Category, quantity: StockTicks): Result<PoolBalances, StockError> {
    if quantity == 0 then Err(ZeroMovement)
    else
      var taken := Take(b.physical, from, quantity);
      if taken.Err? then Err(taken.error)
      else
        var given := Give(taken.value, to, quantity);
        if given.Err? then Err(given.error) else NewBalances(b.introduced, given.value)
  }

  datatype Correction = Add | Remove | Spoil

  function CorrectAvailable(b: PoolBalances, kind: Correction, quantity: StockTicks): Result<PoolBalances, StockError> {
    if quantity == 0 then Err(ZeroMovement)
    else if kind == Add then
      var introduced := AddTicks(b.introduced, quantity);
      var available := AddTicks(b.physical.available, quantity);
      if introduced.Err? then Err(introduced.error)
      else if available.Err? then Err(available.error)
      else NewBalances(introduced.value, b.physical.(available := available.value))
    else
      var available := SubTicks(b.physical.available, quantity);
      if available.Err? then Err(available.error)
      else
        var physical := b.physical.(available := available.value);
        var cumulative := AddTicks(if kind == Remove then physical.removed else physical.waste, quantity);
        if cumulative.Err? then Err(cumulative.error)
        else if kind == Remove then NewBalances(b.introduced, physical.(removed := cumulative.value))
        else NewBalances(b.introduced, physical.(waste := cumulative.value))
  }

  datatype Held = HeldPreparatory | HeldCommitted | HeldQuarantined

  datatype Loss = Spoilage | Removal

  /** Every public movement of the ledger. */
  datatype Step =
    | HoldAvailable(quantity: StockTicks)
    | InstallPreparatory(quantity: StockTicks)
    | ReleasePreparatory(quantity: StockTicks)
    | Correct(kind: Correction, quantity: StockTicks)
    | ReleaseCommitted(quantity: StockTicks)
    | ConsumeCommitted(quantity: StockTicks)
    | QuarantinePreparatory(quantity: StockTicks)
    | QuarantineCommitted(quantity: StockTicks)
    | RestoreQuarantined(quantity: StockTicks)
    | ReleaseQuarantined(quantity: StockTicks)
    | ConsumeQuarantined(quantity: StockTicks)
    | DepleteHeld(category: Held, loss: Loss, quantity: StockTicks)

  function HeldCategory(h: Held): Category {
    match h
    case HeldPreparatory => Preparatory
    case HeldCommitted => Committed
    case HeldQuarantined => Quarantined
  }

  function Apply(b: PoolBalances, step: Step): Result<PoolBalances, StockError> {
    match step
    case HoldAvailable(q) => Move(b, Available, Preparatory, q)
    case InstallPreparatory(q) => Move(b, Preparatory, Committed, q)
    case ReleasePreparatory(q) => Move(b, Preparatory, Available, q)
    case Correct(kind, q) => CorrectAvailable(b, kind, q)
    case ReleaseCommitted(q) => Move(b, Committed, Available, q)
    case ConsumeCommitted(q) => Move(b, Committed, Consumed, q)
    case QuarantinePreparatory(q) => Move(b, Preparatory, Quarantined, q)
    case QuarantineCommitted(q) => Move(b, Committed, Quarantined, q)
    case RestoreQuarantined(q) => Move(b, Quarantined, Committed, q)
    case ReleaseQuarantined(q) => Move(b, Quarantined, Available, q)
    case ConsumeQuarantined(q) => Move(b, Quarantined, Consumed, q)
    case DepleteHeld(h, loss, q) => Move(b, HeldCategory(h), if loss == Spoilage then Waste else Removed, q)
  }

  // ----- the double-entry meaning of a step

  /** The category a step draws on; a positive correction draws on nothing. */
  function Source(step: Step): Option<Category> {
    match step
    case HoldAvailable(_) => Some(Available)
    case Correct(kind, _) => if kind == Add then None else Some(Available)
    case InstallPreparatory(_) => Some(Preparatory)
    case ReleasePreparatory(_) => Some(Preparatory)
    case QuarantinePreparatory(_) => Some(Preparatory)
    case ReleaseCommitted(_) => Some(Committed)
    case ConsumeCommitted(_) => Some(Committed)
    case QuarantineCommitted(_) => Some(Committed)
    case RestoreQuarantined(_) => Some(Quarantined)
    case ReleaseQuarantined(_) => Some(Quarantined)
    case ConsumeQuarantined(_) => Some(Quarantined)
    case DepleteHeld(h, _, _) => Some(HeldCategory(h))
  }

  function Target(step: Step): Category {
    match step
    case HoldAvailable(_) => Preparatory
    case InstallPreparatory(_) => Committed
    case RestoreQuarantined(_) => Committed
    case QuarantinePreparatory(_) => Quarantined
    case QuarantineCommitted(_) => Quarantined
    case ReleasePreparatory(_) => Available
    case ReleaseCommitted(_) => Available
    case ReleaseQuarantined(_) => Available
    case ConsumeCommitted(_) => Consumed
    case ConsumeQuarantined(_) => Consumed
    case Correct(kind, _) => if kind == Add then Available else if kind == Remove then Removed else Waste
    case DepleteHeld(_, loss, _) => if loss == Spoilage then Waste else Removed
  }

  function Delta(step: Step, c: Category): int {
    (if Target(step) == c then step.quantity else 0) - (if Source(step) == Some(c) then step.quantity else 0)
  }

  function IntroducedDelta(step: Step): int {
    if Source(step).None? then step.quantity else 0
  }

  /** A step is allowed by its source balance, or for new stock by the remaining headroom. */
  predicate Allowed(step: Step, source: int, introduced: int) {
    step.quantity > 0 && if Source(step).None? then introduced + step.quantity <= MAX_TICKS else step.quantity <= source
  }

  function SourceBalance(b: PoolBalances, step: Step): nat {
    if Source(step).None? then 0 else Get(b.physical, Source(step).value)
  }

  lemma {:induction false} GetBound(p: PhysicalBalances, c: Category, d: Category)
    ensures c != d ==> Get(p, c) + Get(p, d) <= Total(p)
    ensures Get(p, c) <= Total(p)
  {
  }

  /** What a step does to the ledger, read off its entry. */
  ghost predicate FollowsEntry(b: PoolBalances, step: Step, r: Result<PoolBalances, StockError>) {
    && (r.Ok? <==> Allowed(step, SourceBalance(b, step), b.introduced))
    && (r.Ok? ==> r.value.introduced == b.introduced + IntroducedDelta(step))
    && (r.Ok? ==> forall c :: Get(r.value.physical, c) == Get(b.physical, c) + Delta(step, c))
    && (r.Err? ==> r == Err(if step.quantity == 0 then ZeroMovement
                            else if Source(step).None? then OutOfRange else Underflow))
  }

  /** `given` is `p` with a quantity taken from one category and given to another. */
  ghost predicate Transferred(p: PhysicalBalances, from: Category, to: Category, q: int, given: PhysicalBalances) {
    forall c :: Get(given, c) == Get(p, c) + (if c == to then q else 0) - (if c == from then q else 0)
  }

  lemma {:induction false} TransferExact(p: PhysicalBalances, from: Category, to: Category, q: StockTicks,
                                         taken: PhysicalBalances, given: PhysicalBalances)
    requires from != to && q <= Get(p, from) && Get(taken, to) + q <= MAX_TICKS
    requires PutResult(p, from, Get(p, from) - q, taken) && PutResult(taken, to, Get(taken, to) + q, given)
    ensures Total(given) == Total(p) && Transferred(p, from, to, q, given)
  {
  }

  lemma {:induction false} RoomToGive(p: PhysicalBalances, from: Category, to: Category, q: StockTicks, taken: PhysicalBalances)
    requires from != to && q <= Get(p, from) && Total(p) <= MAX_TICKS
    requires PutResult(p, from, Get(p, from) - q, taken)
    ensures Get(taken, to) + q <= MAX_TICKS
  {
    GetBound(p, from, to);
    assert Get(taken, to) == Get(p, to);
  }

  /** A move succeeds exactly on a positive quantity its source holds, and changes only its two categories. */
  lemma {:induction false} MoveExact(b: PoolBalances, from: Category, to: Category, q: StockTicks)
    requires from != to
    ensures var r := Move(b, from, to, q);
            && (r.Ok? <==> 0 < q <= Get(b.physical, from))
            && (r.Ok? ==> r.value.introduced == b.introduced && Transferred(b.physical, from, to, q, r.value.physical))
            && (r.Err? ==> r == Err(if q == 0 then ZeroMovement else Underflow))
  {
    if 0 < q <= Get(b.physical, from) {
      var taken := Take(b.physical, from, q).value;
      RoomToGive(b.physical, from, to, q, taken);
      TransferExact(b.physical, from, to, q, taken, Give(taken, to, q).value);
    }
  }

  lemma {:induction false} AddFollowsEntry(b: PoolBalances, q: StockTicks)
    ensures FollowsEntry(b, Correct(Add, q), Apply(b, Correct(Add, q)))
  {
    GetBound(b.physical, Available, Available);
  }

  /** Corrections downward are moves out of the available stock. */
  lemma {:induction false} CorrectionIsMove(b: PoolBalances, q: StockTicks)
    ensures CorrectAvailable(b, Remove, q) == Move(b, Available, Removed, q)
    ensures CorrectAvailable(b, Spoil, q) == Move(b, Available, Waste, q)
  {
  }

  lemma {:induction false} StepIsMove(b: PoolBalances, step: Step)
    requires Source(step).Some?
    ensures Source(step).value != Target(step)
    ensures Apply(b, step) == Move(b, Source(step).value, Target(step), step.quantity)
  {
    if step.Correct? {
      CorrectionIsMove(b, step.quantity);
    }
  }

  /** What a move did, read as the entry of a step. */
  lemma {:induction false} MoveIsEntry(b: PoolBalances, step: Step, from: Category, r: Result<PoolBalances, StockError>)
    requires Source(step) == Some(from) && from != Target(step)
    requires r.Ok? <==> 0 < step.quantity <= Get(b.physical, from)
    requires r.Ok? ==> r.value.introduced == b.introduced
    requires r.Ok? ==> Transferred(b.physical, from, Target(step), step.quantity, r.value.physical)
    requires r.Err? ==> r == Err(if step.quantity == 0 then ZeroMovement else Underflow)
    ensures FollowsEntry(b, step, r)
  {
  }

  /** One step succeeds exactly when its quantity is positive and its source (or the headroom)
      suffices; the closing re-validation never rejects it. Every category moves by its entry. */
  lemma {:induction false} StepExact(b: PoolBalances, step: Step)
    ensures FollowsEntry(b, step, Apply(b, step))
  {
    if Source(step).None? {
      AddFollowsEntry(b, step.quantity);
    } else {
      StepIsMove(b, step);
      MoveExact(b, Source(step).value, Target(step), step.quantity);
      MoveIsEntry(b, step, Source(step).value, Apply(b, step));
    }
  }

  // ----- the same, field by field

  /** The whole record as plain integers. */
  datatype Ledger = Ledger(
    introduced: int,
    available: int,
    preparatoryHold: int,
    committedHold: int,
    physicalQuarantine: int,
    consumed: int,
    waste: int,
    removed: int)

  function LedgerOf(b: PoolBalances): Ledger {
    var p := b.physical;
    Ledger(b.introduced, p.available, p.preparatoryHold, p.committedHold, p.physicalQuarantine, p.consumed, p.waste, p.removed)
  }

  /** The field a movement draws on, by name. */
  function DrawnOn(l: Ledger, step: Step): int {
    match step
    case HoldAvailable(_) => l.available
    case InstallPreparatory(_) => l.preparatoryHold
    case ReleasePreparatory(_) => l.preparatoryHold
    case QuarantinePreparatory(_) => l.preparatoryHold
    case ReleaseCommitted(_) => l.committedHold
    case ConsumeCommitted(_) => l.committedHold
    case QuarantineCommitted(_) => l.committedHold
    case RestoreQuarantined(_) => l.physicalQuarantine
    case ReleaseQuarantined(_) => l.physicalQuarantine
    case ConsumeQuarantined(_) => l.physicalQuarantine
    case DepleteHeld(HeldPreparatory, _, _) => l.preparatoryHold
    case DepleteHeld(HeldCommitted, _, _) => l.committedHold
    case DepleteHeld(HeldQuarantined, _, _) => l.physicalQuarantine
    case Correct(Remove, _) => l.available
    case Correct(Spoil, _) => l.available
    case Correct(Add, _) => MAX_TICKS - l.introduced
  }

  /** What each movement does to the named fields of the record, and to no other. */
  function After(l: Ledger, step: Step): Ledger {
    match step
    case HoldAvailable(q) => l.(available := l.available - q, preparatoryHold := l.preparatoryHold + q)
    case InstallPreparatory(q) => l.(preparatoryHold := l.preparatoryHold - q, committedHold := l.committedHold + q)
    case ReleasePreparatory(q) => l.(preparatoryHold := l.preparatoryHold - q, available := l.available + q)
    case ReleaseCommitted(q) => l.(committedHold := l.committedHold - q, available := l.available + q)
    case ConsumeCommitted(q) => l.(committedHold := l.committedHold - q, consumed := l.consumed + q)
    case QuarantinePreparatory(q) =>
      l.(preparatoryHold := l.preparatoryHold - q, physicalQuarantine := l.physicalQuarantine + q)
    case QuarantineCommitted(q) =>
      l.(committedHold := l.committedHold - q, physicalQuarantine := l.physicalQuarantine + q)
    case RestoreQuarantined(q) =>
      l.(physicalQuarantine := l.physicalQuarantine - q, committedHold := l.committedHold + q)
    case ReleaseQuarantined(q) => l.(physicalQuarantine := l.physicalQuarantine - q, available := l.available + q)
    case ConsumeQuarantined(q) => l.(physicalQuarantine := l.physicalQuarantine - q, consumed := l.consumed + q)
    case DepleteHeld(HeldPreparatory, Spoilage, q) =>
      l.(preparatoryHold := l.preparatoryHold - q, waste := l.waste + q)
    case DepleteHeld(HeldPreparatory, Removal, q) =>
      l.(preparatoryHold := l.preparatoryHold - q, removed := l.removed + q)
    case DepleteHeld(HeldCommitted, Spoilage, q) => l.(committedHold := l.committedHold - q, waste := l.waste + q)
    case DepleteHeld(HeldCommitted, Removal, q) => l.(committedHold := l.committedHold - q, removed := l.removed + q)
    case DepleteHeld(HeldQuarantined, Spoilage, q) =>
      l.(physicalQuarantine := l.physicalQuarantine - q, waste := l.waste + q)
    case DepleteHeld(HeldQuarantined, Removal, q) =>
      l.(physicalQuarantine := l.physicalQuarantine - q, removed := l.removed + q)
    case Correct(Remove, q) => l.(available := l.available - q, removed := l.removed + q)
    case Correct(Spoil, q) => l.(available := l.available - q, waste := l.waste + q)
    case Correct(Add, q) => l.(introduced := l.introduced + q, available := l.available + q)
  }

  /** Every category of a record is one of its fields. */
  lemma FieldsOf(p: PhysicalBalances)
    ensures Get(p, Available) == p.available && Get(p, Preparatory) == p.preparatoryHold
    ensures Get(p, Committed) == p.committedHold && Get(p, Quarantined) == p.physicalQuarantine
    ensures Get(p, Consumed) == p.consumed && Get(p, Waste) == p.waste && Get(p, Removed) == p.removed
  {
  }

  /** The record with every field moved by its entry. */
  function Posted(l: Ledger, step: Step): Ledger {
    Ledger(l.introduced + IntroducedDelta(step), l.available + Delta(step, Available),
           l.preparatoryHold + Delta(step, Preparatory), l.committedHold + Delta(step, Committed),
           l.physicalQuarantine + Delta(step, Quarantined), l.consumed + Delta(step, Consumed),
           l.waste + Delta(step, Waste), l.removed + Delta(step, Removed))
  }

  lemma {:induction false} EntryIsPosted(b: PoolBalances, step: Step, r: Result<PoolBalances, StockError>)
    requires FollowsEntry(b, step, r) && r.Ok?
    ensures LedgerOf(r.value) == Posted(LedgerOf(b), step)
  {
    FieldsOf(b.physical);
    FieldsOf(r.value.physical);
  }

  lemma {:induction false} PostedIsAfter(l: Ledger, step: Step)
    ensures Posted(l, step) == After(l, step)
  {
  }

  lemma {:induction false} SourceIsDrawnOn(b: PoolBalances, step: Step)
    ensures Allowed(step, SourceBalance(b, step), b.introduced)
       <==> 0 < step.quantity <= DrawnOn(LedgerOf(b), step)
  {
    FieldsOf(b.physical);
  }

  /** Every public movement, field by field: it succeeds exactly on a positive quantity within the field it draws
      on, and then changes the two fields it names and no other. */
  lemma {:induction false} StepEffects(b: PoolBalances, step: Step)
    ensures var l, r := LedgerOf(b), Apply(b, step);
            if step.quantity == 0 then r == Err(ZeroMovement)
            else if step.quantity > DrawnOn(l, step) then
              r == Err(if step.Correct? && step.kind == Add then OutOfRange else Underflow)
            else r.Ok? && LedgerOf(r.value) == After(l, step)
  {
    var r := Apply(b, step);
    StepExact(b, step);
    SourceIsDrawnOn(b, step);
    if r.Ok? {
      EntryIsPosted(b, step, r);
      PostedIsAfter(LedgerOf(b), step);
    }
  }

  // ----- runs

  function Run(b: PoolBalances, steps: seq<Step>): Result<PoolBalances, StockError>
    decreases |steps|
  {
    if steps == [] then Ok(b)
    else
      var next := Apply(b, steps[0]);
      if next.Err? then Err(next.error) else Run(next.value, steps[1..])
  }

  /** The signed sum of a category's movements. */
  function Movement(steps: seq<Step>, c: Category): int {
    if steps == [] then 0 else Delta(steps[0], c) + Movement(steps[1..], c)
  }

  function Introduction(steps: seq<Step>): int {
    if steps == [] then 0 else IntroducedDelta(steps[0]) + Introduction(steps[1..])
  }

  /** What the source of step `k` holds just before it, from the entries alone. */
  function SourceBefore(b: PoolBalances, steps: seq<Step>, k: nat): int
    requires k < |steps|
  {
    var source := Source(steps[k]);
    if source.None? then 0 else Get(b.physical, source.value) + Movement(steps[..k], source.value)
  }

  /** Over every run, each category is its opening balance plus the signed sum of its movements,
      the categories still add up to the introduced stock, and introduced stock stays in bounds. */
  lemma {:induction false} RunConserves(b: PoolBalances, steps: seq<Step>)
    requires Run(b, steps).Ok?
    ensures var after := Run(b, steps).value;
            && Total(after.physical) == after.introduced <= MAX_TICKS
            && after.introduced == b.introduced + Introduction(steps)
            && forall c :: Get(after.physical, c) == Get(b.physical, c) + Movement(steps, c)
    decreases |steps|
  {
    if steps != [] {
      StepExact(b, steps[0]);
      RunConserves(Apply(b, steps[0]).value, steps[1..]);
    }
  }

  /** Step `k` is allowed by the balances its predecessors leave. */
  predicate AllowedAt(b: PoolBalances, steps: seq<Step>, k: nat)
    requires k < |steps|
  {
    Allowed(steps[k], SourceBefore(b, steps, k), b.introduced + Introduction(steps[..k]))
  }

  lemma {:induction false} FirstAllowed(b: PoolBalances, steps: seq<Step>)
    requires steps != []
    ensures AllowedAt(b, steps, 0) <==> Apply(b, steps[0]).Ok?
  {
    StepExact(b, steps[0]);
    assert steps[..0] == [];
  }

  lemma {:induction false} LaterAllowed(b: PoolBalances, next: PoolBalances, steps: seq<Step>, k: nat)
    requires steps != [] && Apply(b, steps[0]) == Ok(next) && 0 < k < |steps|
    ensures AllowedAt(b, steps, k) <==> AllowedAt(next, steps[1..], k - 1)
  {
    StepExact(b, steps[0]);
    assert steps[..k][1..] == steps[1..][..k - 1];
  }

  /** A run succeeds exactly when every step is allowed by the balances its predecessors leave. */
  lemma {:induction false} RunSucceedsExactly(b: PoolBalances, steps: seq<Step>)
    ensures Run(b, steps).Ok? <==> forall k :: 0 <= k < |steps| ==> AllowedAt(b, steps, k)
    decreases |steps|
  {
    if steps != [] {
      FirstAllowed(b, steps);
      if Apply(b, steps[0]).Ok? {
        var next := Apply(b, steps[0]).value;
        RunSucceedsExactly(next, steps[1..]);
        forall k | 0 < k < |steps|
          ensures AllowedAt(b, steps, k) <==> AllowedAt(next, steps[1..], k - 1)
        {
          LaterAllowed(b, next, steps, k);
        }
        assert forall k :: 0 <= k < |steps[1..]| ==> (AllowedAt(next, steps[1..], k) <==> AllowedAt(b, steps, k + 1));
      }
    }
  }

  lemma {:induction false} MovementIsSum(steps: seq<Step>, c: Category, entry: Step -> int)
    requires forall s :: entry(s) == Delta(s, c)
    ensures Movement(steps, c) == SumBy(steps, entry)
  {
    if steps != [] {
      MovementIsSum(steps[1..], c, entry);
    }
  }

  lemma {:induction false} SameBalances(a: PoolBalances, b: PoolBalances)
    requires forall c :: Get(a.physical, c) == Get(b.physical, c)
    ensures a == b
  {
    var p, q := a.physical, b.physical;
    assert Get(p, Available) == Get(q, Available) && Get(p, Preparatory) == Get(q, Preparatory);
    assert Get(p, Committed) == Get(q, Committed) && Get(p, Quarantined) == Get(q, Quarantined);
    assert Get(p, Consumed) == Get(q, Consumed) && Get(p, Waste) == Get(q, Waste);
    assert Get(p, Removed) == Get(q, Removed);
  }

  /** Two successful runs of the same movements in different orders end in the same balances. */
  lemma {:induction false} RunIgnoresOrder(b: PoolBalances, steps: seq<Step>, reordered: seq<Step>)
    requires multiset(steps) == multiset(reordered)
    requires Run(b, steps).Ok? && Run(b, reordered).Ok?
    ensures Run(b, steps) == Run(b, reordered)
  {
    RunConserves(b, steps);
    RunConserves(b, reordered);
    forall c
      ensures Movement(steps, c) == Movement(reordered, c)
    {
      var entry := (s: Step) => Delta(s, c);
      MovementIsSum(steps, c, entry);
      MovementIsSum(reordered, c, entry);
      SumByPermutation(steps, reordered, entry);
    }
    SameBalances(Run(b, steps).value, Run(b, reordered).value);
  }

  /** Stock that was consumed, wasted or removed never comes back, and introduced stock never shrinks. */
  lemma {:induction false} CumulativeNeverShrinks(b: PoolBalances, steps: seq<Step>)
    requires Run(b, steps).Ok?
    ensures var after := Run(b, steps).value;
            && after.introduced >= b.introduced
            && after.physical.consumed >= b.physical.consumed
            && after.physical.waste >= b.physical.waste
            && after.physical.removed >= b.physical.removed
  {
    var after := Run(b, steps).value;
    RunConserves(b, steps);
    NothingComesBack(steps, Consumed);
    NothingComesBack(steps, Waste);
    NothingComesBack(steps, Removed);
    assert Get(after.physical, Consumed) >= Get(b.physical, Consumed);
    assert Get(after.physical, Waste) >= Get(b.physical, Waste);
    assert Get(after.physical, Removed) >= Get(b.physical, Removed);
  }

  /** No movement draws on a cumulative category. */
  lemma {:induction false} NothingComesBack(steps: seq<Step>, c: Category)
    requires c == Consumed || c == Waste || c == Removed
    ensures Movement(steps, c) >= 0 && Introduction(steps) >= 0
  {
    if steps != [] {
      NothingComesBack(steps[1..], c);
    }
  }

  /** Releasing a hold, and restoring a quarantine, undo it exactly. */
  lemma {:induction false} HoldThenRelease(b: PoolBalances, q: StockTicks)
    ensures Apply(b, HoldAvailable(q)).Ok? ==> Run(b, [HoldAvailable(q), ReleasePreparatory(q)]) == Ok(b)
    ensures Apply(b, QuarantineCommitted(q)).Ok? ==> Run(b, [QuarantineCommitted(q), RestoreQuarantined(q)]) == Ok(b)
  {
    UndoneBy(b, HoldAvailable(q), ReleasePreparatory(q));
    UndoneBy(b, QuarantineCommitted(q), RestoreQuarantined(q));
  }

  lemma {:induction false} UndoneBy(b: PoolBalances, step: Step, inverse: Step)
    requires Source(step).Some? && Source(step).value != Target(step)
    requires Source(inverse) == Some(Target(step)) && Some(Target(inverse)) == Source(step)
    requires step.quantity == inverse.quantity
    ensures Apply(b, step).Ok? ==> Run(b, [step, inverse]) == Ok(b)
  {
    var first := Apply(b, step);
    StepExact(b, step);
    if first.Ok? {
      var second := Apply(first.value, inverse);
      StepExact(first.value, inverse);
      UndoneEntries(b, step, inverse, first.value, second);
      RunTwo(b, step, inverse, first.value, second.value);
    }
  }

  lemma {:induction false} UndoneEntries(b: PoolBalances, step: Step, inverse: Step, next: PoolBalances,
                                         r: Result<PoolBalances, StockError>)
    requires Source(step).Some? && Source(step).value != Target(step)
    requires Source(inverse) == Some(Target(step)) && Some(Target(inverse)) == Source(step)
    requires step.quantity == inverse.quantity
    requires FollowsEntry(b, step, Ok(next)) && FollowsEntry(next, inverse, r)
    ensures r == Ok(b)
  {
    assert Get(next.physical, Target(step)) >= step.quantity;
    assert forall c :: Get(r.value.physical, c) == Get(b.physical, c);
    SameBalances(r.value, b);
  }

  lemma {:induction false} RunTwo(b: PoolBalances, first: Step, second: Step, next: PoolBalances, last: PoolBalances)
    requires Apply(b, first) == Ok(next) && Apply(next, second) == Ok(last)
    ensures Run(b, [first, second]) == Ok(last)
  {
    assert [first, second][1..] == [second];
    assert Run(next, [second]) == Run(last, []);
  }
}
