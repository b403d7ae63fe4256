/** Which error an allocation plan reports, stated from the observed pools, the claims and the agreed lines:
    crates/domain/src/stock/allocation.rs. */
module AllocationErrors {
  import opened Allocations
  import opened Results
  import opened Sequences
  import opened Stock
  import Agreements

  // ----- one line

  /** A line is stale exactly when its mapping is not the current one for it; any other failure is invalid input. */
  lemma DrawTold(line: Agreements.AgreementLine, m: MappingParts, available: map<Id, PoolSnapshot>)
    ensures LineDraw(line, m, available) == Err(StaleState) <==> !MappingFits(line, m, available)
    ensures LineDraw(line, m, available).Err? && MappingFits(line, m, available) ==>
              LineDraw(line, m, available) == Err(InvalidInput)
  {
  }

  /** The claim is of an observed pool at the version it expects. */
  predicate Current(available: map<Id, PoolSnapshot>, c: Claim) {
    c.pool in available && available[c.pool].version == c.expected
  }

  /** What is told of a claim after the ticks covered so far. */
  function ClaimFault(unit: FixedUnit, available: map<Id, PoolSnapshot>, covered: StockTicks, c: Claim)
    : Option<AllocationError>
  {
    if !Current(available, c) then Some(StaleState)
    else if TicksIn(unit, c.quantity).Err? then Some(InvalidInput)
    else if covered + TicksIn(unit, c.quantity).value > 1_000_000_000_000_000_000 then Some(Capacity)
    else if TicksIn(available[c.pool].unit, c.quantity).Err? then Some(InvalidInput)
    else None
  }

  /** A claim is stale, invalid or over capacity, in this order; what it adds is its ticks in the line's unit. */
  lemma ClaimTold(unit: FixedUnit, available: map<Id, PoolSnapshot>, cover: Cover, c: Claim)
    ensures var r := CoverClaim(unit, available, cover, c);
            match ClaimFault(unit, available, cover.covered, c)
            case Some(e) => r == Err(e)
            case None => r.Ok? && r.value.covered == cover.covered + TicksIn(unit, c.quantity).value
  {
  }

  /** The ticks in the line's unit that usable claims cover. */
  function Covered(unit: FixedUnit, claims: seq<Claim>): nat {
    if claims == [] then 0
    else
      var ticks := TicksIn(unit, claims[|claims| - 1].quantity);
      Covered(unit, claims[..|claims| - 1]) + if ticks.Ok? then ticks.value else 0
  }

  /** No claim of a list has a fault after those before it. */
  ghost predicate Faultless(unit: FixedUnit, available: map<Id, PoolSnapshot>, claims: seq<Claim>) {
    claims == [] ||
    (var init, last := claims[..|claims| - 1], claims[|claims| - 1];
     && Faultless(unit, available, init) && Covered(unit, init) <= 1_000_000_000_000_000_000
     && ClaimFault(unit, available, Covered(unit, init), last).None?)
  }

  lemma {:induction false} CoverSnoc(unit: FixedUnit, available: map<Id, PoolSnapshot>, cover: Cover,
                                     claims: seq<Claim>, c: Claim)
    ensures CoverClaims(unit, available, cover, claims + [c])
         == match CoverClaims(unit, available, cover, claims)
            case Ok(next) => CoverClaim(unit, available, next, c)
            case Err(e) => Err(e)
    decreases |claims|
  {
    if claims == [] {
      assert [c][1..] == [];
    } else {
      assert (claims + [c])[1..] == claims[1..] + [c];
      var next := CoverClaim(unit, available, cover, claims[0]);
      if next.Ok? {
        CoverSnoc(unit, available, next.value, claims[1..], c);
      }
    }
  }

  lemma CoverOneMore(unit: FixedUnit, available: map<Id, PoolSnapshot>, init: seq<Claim>, last: Claim, cover: Cover)
    requires CoverClaims(unit, available, Cover(0, []), init) == Ok(cover) && cover.covered == Covered(unit, init)
    requires ClaimFault(unit, available, cover.covered, last).None?
    ensures var r := CoverClaims(unit, available, Cover(0, []), init + [last]);
            r.Ok? && r.value.covered == Covered(unit, init + [last])
  {
    CoverSnoc(unit, available, Cover(0, []), init, last);
    ClaimTold(unit, available, cover, last);
    assert (init + [last])[..|init|] == init;
  }

  lemma {:induction false} FaultlessCovered(unit: FixedUnit, available: map<Id, PoolSnapshot>, claims: seq<Claim>)
    requires Faultless(unit, available, claims)
    ensures var r := CoverClaims(unit, available, Cover(0, []), claims);
            r.Ok? && r.value.covered == Covered(unit, claims)
  {
    if claims != [] {
      var init, last := claims[..|claims| - 1], claims[|claims| - 1];
      FaultlessCovered(unit, available, init);
      CoverOneMore(unit, available, init, last, CoverClaims(unit, available, Cover(0, []), init).value);
      assert claims == init + [last];
    }
  }

  lemma {:induction false} CoverStops(unit: FixedUnit, available: map<Id, PoolSnapshot>, claims: seq<Claim>, k: nat)
    requires k <= |claims| && CoverClaims(unit, available, Cover(0, []), claims[..k]).Err?
    ensures CoverClaims(unit, available, Cover(0, []), claims) == CoverClaims(unit, available, Cover(0, []), claims[..k])
    decreases |claims|
  {
    if k == |claims| {
      assert claims[..k] == claims;
    } else {
      var init, last := claims[..|claims| - 1], claims[|claims| - 1];
      assert claims == init + [last] && init[..k] == claims[..k];
      CoverStops(unit, available, init, k);
      CoverSnoc(unit, available, Cover(0, []), init, last);
    }
  }

  lemma NextClaimTold(unit: FixedUnit, available: map<Id, PoolSnapshot>, init: seq<Claim>, c: Claim)
    requires Faultless(unit, available, init)
    ensures Covered(unit, init) <= 1_000_000_000_000_000_000
    ensures var fault := ClaimFault(unit, available, Covered(unit, init), c);
            fault.Some? ==> CoverClaims(unit, available, Cover(0, []), init + [c]) == Err(fault.value)
  {
    FaultlessCovered(unit, available, init);
    CoverSnoc(unit, available, Cover(0, []), init, c);
    ClaimTold(unit, available, CoverClaims(unit, available, Cover(0, []), init).value, c);
  }

  /** The first faulty claim decides the error. */
  lemma FirstClaimTold(unit: FixedUnit, available: map<Id, PoolSnapshot>, claims: seq<Claim>, k: nat)
    requires k < |claims| && Faultless(unit, available, claims[..k])
    ensures Covered(unit, claims[..k]) <= 1_000_000_000_000_000_000
    ensures var fault := ClaimFault(unit, available, Covered(unit, claims[..k]), claims[k]);
            fault.Some? ==> CoverClaims(unit, available, Cover(0, []), claims) == Err(fault.value)
  {
    NextClaimTold(unit, available, claims[..k], claims[k]);
    assert claims[..k + 1] == claims[..k] + [claims[k]];
    if CoverClaims(unit, available, Cover(0, []), claims[..k + 1]).Err? {
      CoverStops(unit, available, claims, k + 1);
    }
  }

  /** What a line with explicit claims reports: the first faulty claim, or invalid input when faultless claims do not
      cover it exactly. */
  lemma LineTold(line: Agreements.AgreementLine, m: MappingParts, available: map<Id, PoolSnapshot>,
                 claims: seq<Claim>, required: StockTicks, mine: seq<Claim>, k: nat)
    requires LineDraw(line, m, available) == Ok(required) && mine == ClaimsFor(claims, line.id)
    requires k <= |mine| && Faultless(m.unit, available, mine[..k])
    ensures k < |mine| ==>
              && Covered(m.unit, mine[..k]) <= 1_000_000_000_000_000_000
              && var fault := ClaimFault(m.unit, available, Covered(m.unit, mine[..k]), mine[k]);
                 fault.Some? ==> ResolveLine(line, m, available, Some(claims)) == Err(fault.value)
    ensures k == |mine| ==>
              if Covered(m.unit, mine) == required then ResolveLine(line, m, available, Some(claims)).Ok?
              else ResolveLine(line, m, available, Some(claims)) == Err(InvalidInput)
  {
    if k < |mine| {
      FirstClaimTold(m.unit, available, mine, k);
    } else {
      assert mine[..k] == mine;
      FaultlessCovered(m.unit, available, mine);
    }
  }

  // ----- whole resolutions

  /** The first line that does not resolve decides the error. */
  lemma {:induction false} FirstLineTold(lines: Lines, mappings: seq<MappingParts>, available: map<Id, PoolSnapshot>,
                                         explicit: Option<seq<Claim>>, i: nat, e: AllocationError)
    requires |lines| == |mappings| && i < |lines| && ResolveLine(lines[i], mappings[i], available, explicit) == Err(e)
    requires forall j :: 0 <= j < i ==> LineResolves(lines, mappings, available, explicit, j)
    ensures ResolveLines(lines, mappings, available, explicit) == Err(e)
    decreases i
  {
    if i == 0 {
      HeadTold(lines, mappings, available, explicit, e);
    } else {
      LaterLines(lines, mappings, available, explicit, i);
      assert lines[1..][i - 1] == lines[i] && mappings[1..][i - 1] == mappings[i];
      FirstLineTold(lines[1..], mappings[1..], available, explicit, i - 1, e);
      assert LineResolves(lines, mappings, available, explicit, 0);
      HeadTold(lines, mappings, available, explicit, e);
    }
  }

  lemma HeadTold(lines: Lines, mappings: seq<MappingParts>, available: map<Id, PoolSnapshot>,
                 explicit: Option<seq<Claim>>, e: AllocationError)
    requires |lines| == |mappings| > 0
    requires || ResolveLine(lines[0], mappings[0], available, explicit) == Err(e)
             || (&& LineResolves(lines, mappings, available, explicit, 0)
                 && ResolveLines(lines[1..], mappings[1..], available, explicit) == Err(e))
    ensures ResolveLines(lines, mappings, available, explicit) == Err(e)
  {
  }

  lemma LaterLines(lines: Lines, mappings: seq<MappingParts>, available: map<Id, PoolSnapshot>,
                   explicit: Option<seq<Claim>>, i: nat)
    requires 0 < i < |lines| == |mappings|
    requires forall j :: 0 <= j < i ==> LineResolves(lines, mappings, available, explicit, j)
    ensures forall j :: 0 <= j < i - 1 ==> LineResolves(lines[1..], mappings[1..], available, explicit, j)
  {
    forall j | 0 <= j < i - 1
      ensures LineResolves(lines[1..], mappings[1..], available, explicit, j)
    {
      assert LineResolves(lines, mappings, available, explicit, j + 1);
    }
  }

  /** What a whole resolution reports: invalid input for its counts and for repeated pools or claims, then the error
      of the first line that fails, then invalid input for claims or draws left over. */
  lemma ResolutionTold(t: Agreements.Terms, mappings: seq<MappingParts>, pools: seq<PoolSnapshot>,
                       explicit: Option<seq<Claim>>, i: nat)
    requires t.supply.StockBacked?
    ensures |mappings| != |t.lines| || |pools| > 96 || !ObservedOnce(pools)
            || (explicit.Some? && !(1 <= |explicit.value| <= 64 && ClaimedOnce(explicit.value))) ==>
              Resolve(t, mappings, pools, explicit) == Err(InvalidInput)
    ensures |mappings| == |t.lines| && |pools| <= 96 && ObservedOnce(pools)
            && (explicit.Some? ==> 1 <= |explicit.value| <= 64 && ClaimedOnce(explicit.value))
            && i <= |t.lines| && (forall j :: 0 <= j < i ==> LineResolves(t.lines, mappings, Index(pools), explicit, j)) ==>
              if i < |t.lines| then
                var here := ResolveLine(t.lines[i], mappings[i], Index(pools), explicit);
                here.Err? ==> Resolve(t, mappings, pools, explicit) == Err(here.error)
              else Resolve(t, mappings, pools, explicit).Err? ==> Resolve(t, mappings, pools, explicit) == Err(InvalidInput)
  {
    if |mappings| == |t.lines| && i <= |t.lines|
       && (forall j :: 0 <= j < i ==> LineResolves(t.lines, mappings, Index(pools), explicit, j)) {
      if i < |t.lines| {
        var here := ResolveLine(t.lines[i], mappings[i], Index(pools), explicit);
        if here.Err? {
          FirstLineTold(t.lines, mappings, Index(pools), explicit, i, here.error);
        }
      } else {
        ResolveLinesExact(t.lines, mappings, Index(pools), explicit);
      }
    }
  }

  // ----- holds and plans

  /** A hold is refused for its input, then for stock that is not there, then for a version that cannot advance. */
  lemma HoldTold(before: PoolSnapshot, quantity: StockTicks)
    ensures NewHold(before, quantity).Err? ==>
              NewHold(before, quantity)
              == if before.version == 0 || quantity == 0 then Err(InvalidInput)
                 else if before.balances.physical.available < quantity then Err(StaleState)
                 else Err(Capacity)
  {
    MoveExact(before.balances, Available, Preparatory, quantity);
  }

  lemma {:induction false} TotalsTold(totals: map<Id, StockTicks>, result: seq<Allocation>)
    ensures Totals(totals, result).Err? ==> Totals(totals, result) == Err(Capacity)
    decreases |result|
  {
    if result != [] {
      var next := AddToTotal(totals, result[0]);
      if next.Ok? {
        TotalsTold(next.value, result[1..]);
      }
    }
  }

  lemma {:induction false} FirstHoldTold(ids: seq<Id>, totals: map<Id, StockTicks>, available: map<Id, PoolSnapshot>, i: nat)
    requires Known(ids, totals, available) && i < |ids| && !Holdable(available[ids[i]], totals[ids[i]])
    requires forall j :: 0 <= j < i ==> Holdable(available[ids[j]], totals[ids[j]])
    ensures NewHold(available[ids[i]], totals[ids[i]]).Err?
    ensures Holds(ids, totals, available) == Err(NewHold(available[ids[i]], totals[ids[i]]).error)
    decreases i
  {
    NewHoldExact(available[ids[0]], totals[ids[0]]);
    if i > 0 {
      assert Holdable(available[ids[0]], totals[ids[0]]);
      FirstHoldTold(ids[1..], totals, available, i - 1);
    }
  }

  /** Once terms resolve, a plan fails for capacity when some pool's total is out of range, and otherwise at the least
      drawn pool that cannot be held: stale when it lacks the stock, over capacity when its version cannot advance. */
  lemma {:induction false} PlanTold(t: Agreements.Terms, mappings: seq<MappingParts>, pools: seq<PoolSnapshot>,
                                    explicit: Option<seq<Claim>>, result: seq<Allocation>, pool: Id)
    requires Resolve(t, mappings, pools, explicit) == Ok(result)
    requires Draws(result, pool) && pool in Index(pools) && !Sufficient(result, pool, Index(pools)[pool])
    requires forall other: Id | Draws(result, other) && other < pool ::
               other in Index(pools) && Sufficient(result, other, Index(pools)[other])
    ensures Plan(t, mappings, pools, explicit)
         == if exists p: Id :: Draws(result, p) && SumBy(result, InPool(p)) > 1_000_000_000_000_000_000 then Err(Capacity)
            else if SumBy(result, InPool(pool)) > Index(pools)[pool].balances.physical.available then Err(StaleState)
            else Err(Capacity)
  {
    DrawnPools(t, mappings, pools, explicit, result);
    TotalsExact(map[], result);
    TotalsTold(map[], result);
    if Totals(map[], result).Ok? {
      var totals, ids := Totals(map[], result).value, SortDedup(PoolIds(result));
      PlanKeys(result, totals, Index(pools));
      PoolIdsDrawn(result);
      var i: nat :| i < |ids| && ids[i] == pool;
      forall j | 0 <= j < i
        ensures Holdable(Index(pools)[ids[j]], totals[ids[j]])
      {
        assert ids[j] in ids && NatLess(ids[j], ids[i]);
      }
      FirstHoldTold(ids, totals, Index(pools), i);
      HoldTold(Index(pools)[pool], totals[pool]);
    }
  }
}
