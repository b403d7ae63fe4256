/** Agreement lines and bilateral terms of crates/domain/src/agreement.rs. */
module Agreements {
  import opened Amount
  import opened Listings
  import opened Monetary
  import opened Pricing
  import opened Results
  import opened Sequences
  import opened VariablePrice

  const MAX_FULFILLMENT_GROUPS: nat := 8

  datatype TermsError =
    | PartiesCoincide
    | InvalidTermsLineCount
    | InvalidFulfillmentCount
    | DuplicateLine
    | DuplicateFulfillment
    | UnknownFulfillment
    | OptionMismatch
    | SellerMismatch
    | InvalidLabel
    | InvalidSelectedTier
    | TotalMismatch
    | Purchase(listing: ListingError)
    | PricingError(pricing: PricingError)

  datatype AgreedFixedPrice = AgreedFixedPrice(
    rate: Money,
    basis: PositiveDecimal,
    discount: DiscountBps,
    selectedTierFrom: Option<Decimal>)

  function FromLine(value: LinePrice): AgreedFixedPrice {
    AgreedFixedPrice(value.rate, value.basis, value.discount, value.selectedTierFrom)
  }

  function AgreedTotal(price: AgreedFixedPrice, amount: PositiveDecimal): Result<Money, TermsError> {
    if price.selectedTierFrom.Some? && Cmp(price.selectedTierFrom.value, amount) == Greater then
      Err(InvalidSelectedTier)
    else
      var minor := NetLineMinor(price.rate.minor, amount, price.basis, price.discount);
      if minor.Err? then Err(PricingError(minor.error)) else Ok(Money(price.rate.currency, minor.value))
  }

  datatype AgreementPrice = AgreedFixed(fixed: AgreedFixedPrice) | AgreedVariable(weight: WeightParts)

  function MaximumTotal(price: AgreementPrice, amount: PositiveDecimal): Result<Money, TermsError> {
    match price
    case AgreedFixed(value) => AgreedTotal(value, amount)
    case AgreedVariable(value) => Ok(value.maximumTotal)
  }

  /** The claimed source: the listing author, the listing and the exact revision. */
  datatype ListingRevision = ListingRevision(author: Id, listing: Id, event: Id)

  datatype AgreementLine = AgreementLine(
    id: Id,
    source: ListingRevision,
    product: string,
    option: OptionParts,
    amount: PositiveDecimal,
    group: Id,
    sourceLotLabel: Option<string>,
    price: AgreementPrice,
    maximumLineTotal: Money)

  function NewLine(optionId: Id, line: AgreementLine): Result<AgreementLine, TermsError> {
    if optionId != line.option.id then Err(OptionMismatch)
    else if !ValidateAmount(line.option, line.amount) then Err(Purchase(InvalidQuantity))
    else if line.sourceLotLabel.Some? && !TextAdmitted(line.sourceLotLabel.value, 120, true) then Err(InvalidLabel)
    else
      var total := MaximumTotal(line.price, line.amount);
      if total.Err? then Err(total.error)
      else if total.value != line.maximumLineTotal then Err(TotalMismatch)
      else Ok(line)
  }

  /** Re-pricing the retained inputs of a priced line reproduces its total. */
  lemma RepricingAgrees(price: FixedPrice, amount: PositiveDecimal)
    requires Line(price, amount).Ok?
    ensures AgreedTotal(FromLine(Line(price, amount).value), amount) == Ok(Line(price, amount).value.total)
  {
    var selected := SelectTier(price.tiers, amount);
    SelectTierSound(price.rate.currency, price.tiers, amount);
    if selected.Some? {
      CmpIsRational(selected.value.from, amount);
    }
  }

  /** A line taken from a listing's own fixed price is admitted unless its lot label is too long. */
  lemma ListedLineAdmitted(line: AgreementLine)
    requires FixedLine(line.option, line.amount).Ok?
    requires line.price == AgreedFixed(FromLine(FixedLine(line.option, line.amount).value))
    requires line.maximumLineTotal == FixedLine(line.option, line.amount).value.total
    ensures NewLine(line.option.id, line)
            == if line.sourceLotLabel.Some? && !TextAdmitted(line.sourceLotLabel.value, 120, true)
               then Err(InvalidLabel) else Ok(line)
  {
    RepricingAgrees(line.option.price.value, line.amount);
  }

  /** The agreed total is the half-even exact price, for amounts that reach the retained threshold. */
  lemma AgreedTotalExact(p: AgreedFixedPrice, amount: PositiveDecimal)
    ensures var reached := p.selectedTierFrom.Some? ==> Micro(p.selectedTierFrom.value) <= Micro(amount);
            var price := NetPrice(p.rate.minor, amount, p.basis, p.discount);
            AgreedTotal(p, amount)
            == if !reached then Err(InvalidSelectedTier)
               else if price > MAX_VALUE then Err(PricingError(MoneyFailure(MinorOutOfRange)))
               else Ok(Money(p.rate.currency, price))
  {
    NetLineExact(p.rate.minor, amount, p.basis, p.discount);
    if p.selectedTierFrom.Some? {
      CmpIsRational(p.selectedTierFrom.value, amount);
    }
  }

  /** The declared total is the exact rounded price of the retained inputs, or the variable cap. */
  predicate DeclaresExactTotal(line: AgreementLine) {
    match line.price
    case AgreedFixed(p) =>
      && (p.selectedTierFrom.Some? ==> Micro(p.selectedTierFrom.value) <= Micro(line.amount))
      && line.maximumLineTotal.currency == p.rate.currency
      && line.maximumLineTotal.minor == NetPrice(p.rate.minor, line.amount, p.basis, p.discount)
    case AgreedVariable(w) => line.maximumLineTotal == w.maximumTotal
  }

  /** A line is admitted, unchanged, exactly when it names its option, obeys the purchase rules
      and declares its exact total. */
  lemma LineAdmittedExactly(optionId: Id, line: AgreementLine)
    ensures NewLine(optionId, line).Ok? <==>
              && optionId == line.option.id
              && ValidateAmount(line.option, line.amount)
              && (line.sourceLotLabel.Some? ==> TextAdmitted(line.sourceLotLabel.value, 120, true))
              && DeclaresExactTotal(line)
    ensures NewLine(optionId, line).Ok? ==> NewLine(optionId, line).value == line
    ensures NewLine(optionId, line).Err? ==>
              NewLine(optionId, line)
              == if optionId != line.option.id then Err(OptionMismatch)
                 else if !ValidateAmount(line.option, line.amount) then Err(Purchase(InvalidQuantity))
                 else if line.sourceLotLabel.Some? && !TextAdmitted(line.sourceLotLabel.value, 120, true) then Err(InvalidLabel)
                 else if line.price.AgreedFixed? && AgreedTotal(line.price.fixed, line.amount).Err? then
                   Err(AgreedTotal(line.price.fixed, line.amount).error)
                 else Err(TotalMismatch)
  {
    if line.price.AgreedFixed? {
      AgreedTotalExact(line.price.fixed, line.amount);
    }
  }

  // ----- complete terms

  datatype Group = Group(id: Id, terms: string)

  datatype Supplied = StockBacked | FuturePromise(disclosure: string)

  datatype Terms = Terms(
    buyer: Id,
    seller: Id,
    lines: seq<AgreementLine>,
    groups: seq<Group>,
    charge: Money,
    maximumTotal: Money,
    supply: Supplied)

  function LineId(line: AgreementLine): Id { line.id }

  function GroupId(group: Group): Id { group.id }

  function LineTotals(lines: seq<AgreementLine>): (totals: seq<Money>)
    ensures |totals| == |lines|
    ensures forall i :: 0 <= i < |lines| ==> totals[i] == lines[i].maximumLineTotal
  {
    if lines == [] then [] else [lines[0].maximumLineTotal] + LineTotals(lines[1..])
  }

  predicate HasGroup(groups: seq<Group>, id: Id) {
    exists i :: 0 <= i < |groups| && groups[i].id == id
  }

  /** The first complaint of the loop over the lines, from line `k` on. */
  function LineFault(t: Terms, k: nat): Option<TermsError>
    requires k <= |t.lines|
    decreases |t.lines| - k
  {
    if k == |t.lines| then None
    else if exists j :: 0 <= j < k && t.lines[j].id == t.lines[k].id then Some(DuplicateLine)
    else if t.lines[k].source.author != t.seller then Some(SellerMismatch)
    else if !HasGroup(t.groups, t.lines[k].group) then Some(UnknownFulfillment)
    else LineFault(t, k + 1)
  }

  predicate GroupsDistinct(groups: seq<Group>) {
    forall i, j :: 0 <= i < j < |groups| ==> groups[i].id != groups[j].id
  }

  function Admit(t: Terms): Result<Terms, TermsError> {
    if t.buyer == t.seller then Err(PartiesCoincide)
    else if t.lines == [] || |t.lines| > MAX_PRICED_LINES then Err(InvalidTermsLineCount)
    else if t.groups == [] || |t.groups| > MAX_FULFILLMENT_GROUPS then Err(InvalidFulfillmentCount)
    else if !GroupsDistinct(t.groups) then Err(DuplicateFulfillment)
    else if LineFault(t, 0).Some? then Err(LineFault(t, 0).value)
    else
      var recomputed := OrderTotal(LineTotals(t.lines), t.charge);
      if recomputed.Err? then Err(PricingError(recomputed.error))
      else if recomputed.value != t.maximumTotal then Err(TotalMismatch)
      else Ok(t)
  }

  method NewTerms(buyer: Id, seller: Id, lines: seq<AgreementLine>, groups: seq<Group>,
                  charge: Money, maximumTotal: Money, supply: Supplied)
    returns (r: Result<Terms, TermsError>)
    ensures r == Admit(Terms(buyer, seller, lines, groups, charge, maximumTotal, supply))
  {
    var t := Terms(buyer, seller, lines, groups, charge, maximumTotal, supply);
    if buyer == seller {
      return Err(PartiesCoincide);
    }
    if lines == [] || |lines| > MAX_PRICED_LINES {
      return Err(InvalidTermsLineCount);
    }
    if groups == [] || |groups| > MAX_FULFILLMENT_GROUPS {
      return Err(InvalidFulfillmentCount);
    }
    for index := 0 to |groups|
      invariant GroupsDistinct(groups[..index])
    {
      if exists j :: 0 <= j < index && groups[j].id == groups[index].id {
        return Err(DuplicateFulfillment);
      }
    }
    assert groups[..|groups|] == groups;
    for index := 0 to |lines|
      invariant LineFault(t, index) == LineFault(t, 0)
    {
      var line := lines[index];
      if exists j :: 0 <= j < index && lines[j].id == line.id {
        return Err(DuplicateLine);
      }
      if line.source.author != seller {
        return Err(SellerMismatch);
      }
      if !HasGroup(groups, line.group) {
        return Err(UnknownFulfillment);
      }
    }
    var recomputed := CheckedOrderTotal(LineTotals(lines), charge);
    if recomputed.Err? {
      return Err(PricingError(recomputed.error));
    }
    if recomputed.value != maximumTotal {
      return Err(TotalMismatch);
    }
    return Ok(t);
  }

  /** Everything that complete terms promise, with no order of checking. */
  ghost predicate Acceptable(t: Terms) {
    && t.buyer != t.seller
    && 1 <= |t.lines| <= MAX_PRICED_LINES
    && 1 <= |t.groups| <= MAX_FULFILLMENT_GROUPS
    && DistinctBy(t.groups, GroupId)
    && DistinctBy(t.lines, LineId)
    && (forall line | line in t.lines :: line.source.author == t.seller)
    && (forall line | line in t.lines :: exists g | g in t.groups :: g.id == line.group)
    && (forall line | line in t.lines :: line.maximumLineTotal.currency == t.charge.currency)
    && t.maximumTotal.currency == t.charge.currency
    && t.maximumTotal.minor == t.charge.minor + SumBy(t.lines, LineMinor)
  }

  function LineMinor(line: AgreementLine): int { line.maximumLineTotal.minor }

  lemma {:induction false} LineFaultExact(t: Terms, k: nat)
    requires k <= |t.lines|
    ensures LineFault(t, k).None? <==>
              forall i | k <= i < |t.lines| ::
                && (forall j | 0 <= j < i :: t.lines[j].id != t.lines[i].id)
                && t.lines[i].source.author == t.seller
                && HasGroup(t.groups, t.lines[i].group)
    decreases |t.lines| - k
  {
    if k < |t.lines| {
      LineFaultExact(t, k + 1);
    }
  }

  lemma {:induction false} LineTotalsSum(lines: seq<AgreementLine>)
    ensures SumMinor(LineTotals(lines)) == SumBy(lines, LineMinor)
  {
    if lines != [] {
      LineTotalsSum(lines[1..]);
      assert LineTotals(lines)[1..] == LineTotals(lines[1..]);
    }
  }

  lemma TotalsCurrency(lines: seq<AgreementLine>, currency: Currency)
    ensures SameCurrency(LineTotals(lines), currency) <==>
              forall line | line in lines :: line.maximumLineTotal.currency == currency
  {
    var totals := LineTotals(lines);
    if SameCurrency(totals, currency) {
      forall line | line in lines
        ensures line.maximumLineTotal.currency == currency
      {
        var i :| 0 <= i < |lines| && lines[i] == line;
        assert totals[i].currency == currency;
      }
    }
  }

  lemma HasGroupMember(groups: seq<Group>, id: Id)
    ensures HasGroup(groups, id) <==> exists g | g in groups :: g.id == id
  {
    if g :| g in groups && g.id == id {
      var i :| 0 <= i < |groups| && groups[i] == g;
    }
  }

  /** Terms are admitted exactly when they are acceptable, and are returned unchanged. */
  lemma {:induction false} AdmitExact(t: Terms)
    ensures Admit(t).Ok? <==> Acceptable(t)
    ensures Admit(t).Ok? ==> Admit(t).value == t
  {
    AdmitSteps(t);
    LinesFaultless(t);
    if 1 <= |t.lines| <= MAX_PRICED_LINES {
      TotalsAgree(t);
    }
  }

  lemma {:induction false} AdmitSteps(t: Terms)
    ensures Admit(t).Ok? <==>
              && t.buyer != t.seller && 1 <= |t.lines| <= MAX_PRICED_LINES && 1 <= |t.groups| <= MAX_FULFILLMENT_GROUPS
              && DistinctBy(t.groups, GroupId) && LineFault(t, 0).None?
              && OrderTotal(LineTotals(t.lines), t.charge) == Ok(t.maximumTotal)
    ensures Admit(t).Ok? ==> Admit(t).value == t
  {
    assert GroupsDistinct(t.groups) <==> DistinctBy(t.groups, GroupId);
  }

  /** The loop over the lines passes exactly when ids differ, the seller signed and every group exists. */
  lemma {:induction false} LinesFaultless(t: Terms)
    ensures LineFault(t, 0).None? <==>
              && DistinctBy(t.lines, LineId)
              && (forall line | line in t.lines :: line.source.author == t.seller)
              && (forall line | line in t.lines :: exists g | g in t.groups :: g.id == line.group)
  {
    LineFaultExact(t, 0);
    forall line | line in t.lines
      ensures HasGroup(t.groups, line.group) <==> exists g | g in t.groups :: g.id == line.group
    {
      HasGroupMember(t.groups, line.group);
    }
  }

  lemma {:induction false} TotalsAgree(t: Terms)
    requires 1 <= |t.lines| <= MAX_PRICED_LINES
    ensures OrderTotal(LineTotals(t.lines), t.charge) == Ok(t.maximumTotal) <==>
              && (forall line | line in t.lines :: line.maximumLineTotal.currency == t.charge.currency)
              && t.maximumTotal.currency == t.charge.currency
              && t.maximumTotal.minor == t.charge.minor + SumBy(t.lines, LineMinor)
  {
    LineTotalsSum(t.lines);
    TotalsCurrency(t.lines, t.charge.currency);
    OrderTotalExact(LineTotals(t.lines), t.charge);
  }

  /** Reordering lines and groups never changes whether terms are admitted. */
  lemma {:induction false} AdmissionIgnoresOrder(t: Terms, lines: seq<AgreementLine>, groups: seq<Group>)
    requires multiset(lines) == multiset(t.lines) && multiset(groups) == multiset(t.groups)
    ensures Admit(t.(lines := lines, groups := groups)).Ok? <==> Admit(t).Ok?
  {
    var u := t.(lines := lines, groups := groups);
    AdmitExact(t);
    AdmitExact(u);
    PermutationMembers(lines, t.lines);
    PermutationMembers(groups, t.groups);
    SumByPermutation(lines, t.lines, LineMinor);
    if Acceptable(t) {
      DistinctByPermutation(t.lines, lines, LineId);
      DistinctByPermutation(t.groups, groups, GroupId);
    }
    if Acceptable(u) {
      DistinctByPermutation(lines, t.lines, LineId);
      DistinctByPermutation(groups, t.groups, GroupId);
    }
  }
}
