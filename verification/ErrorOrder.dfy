/** When the error that `checked_order_total` and `Terms::new` report depends on the order of their
    inputs: crates/domain/src/pricing.rs and crates/domain/src/agreement.rs. */
module ErrorOrder {
  import opened Agreements
  import opened Monetary
  import opened Pricing
  import opened Results
  import opened Sequences

  // ----- order totals

  predicate Native(line: Money, currency: Currency) {
    line.currency == currency
  }

  /** What a line adds to a total in the given currency; a foreign line adds nothing. */
  function NativeMinor(currency: Currency): Money -> int {
    (line: Money) => if Native(line, currency) then line.minor else 0
  }

  lemma {:induction false} NativeMinorSum(lines: seq<Money>, currency: Currency)
    requires SameCurrency(lines, currency)
    ensures SumBy(lines, NativeMinor(currency)) == SumMinor(lines)
  {
    if lines != [] {
      NativeMinorSum(lines[1..], currency);
    }
  }

  /** In one currency only the bound can fail. */
  lemma {:induction false} OneCurrencyTotal(total: Money, lines: seq<Money>)
    requires SameCurrency(lines, total.currency)
    ensures FoldTotal(total, lines)
         == if total.minor + SumMinor(lines) <= MAX_VALUE then Ok(Money(total.currency, total.minor + SumMinor(lines)))
            else Err(MoneyFailure(MinorOutOfRange))
    decreases |lines|
  {
    if lines != [] && total.minor + lines[0].minor <= MAX_VALUE {
      OneCurrencyTotal(Money(total.currency, total.minor + lines[0].minor), lines[1..]);
    }
  }

  /** A foreign line is reported, wherever it stands, when the native lines alone stay in bounds. */
  lemma {:induction false} ForeignReported(total: Money, lines: seq<Money>)
    requires !SameCurrency(lines, total.currency)
    requires total.minor + SumBy(lines, NativeMinor(total.currency)) <= MAX_VALUE
    ensures FoldTotal(total, lines) == Err(MoneyFailure(CurrencyMismatch))
    decreases |lines|
  {
    NativeMinorPositive(lines[1..], total.currency);
    if Native(lines[0], total.currency) {
      assert !SameCurrency(lines[1..], total.currency) by {
        var i :| 0 <= i < |lines| && lines[i].currency != total.currency;
        assert lines[1..][i - 1] == lines[i];
      }
      ForeignReported(Money(total.currency, total.minor + lines[0].minor), lines[1..]);
    }
  }

  lemma {:induction false} NativeMinorPositive(lines: seq<Money>, currency: Currency)
    ensures SumBy(lines, NativeMinor(currency)) >= 0
  {
    if lines != [] {
      NativeMinorPositive(lines[1..], currency);
    }
  }

  /** A fold that has failed stays failed. */
  lemma {:induction false} FailedPrefix(total: Money, lines: seq<Money>, more: seq<Money>)
    requires FoldTotal(total, lines).Err?
    ensures FoldTotal(total, lines + more) == FoldTotal(total, lines)
    decreases |lines|
  {
    var sum := Monetary.CheckedAdd(total, lines[0]);
    assert (lines + more)[1..] == lines[1..] + more;
    if sum.Ok? {
      FailedPrefix(sum.value, lines[1..], more);
    }
  }

  predicate CountInRange(n: nat) {
    1 <= n <= MAX_PRICED_LINES
  }

  /** Checkable before the call: one currency only, or native lines that stay in bounds by themselves. */
  predicate TotalOrderFree(lines: seq<Money>, charge: Money) {
    || !CountInRange(|lines|)
    || SameCurrency(lines, charge.currency)
    || charge.minor + SumBy(lines, NativeMinor(charge.currency)) <= MAX_VALUE
  }

  /** Every order of the lines has the same outcome. */
  ghost predicate TotalFixed(lines: seq<Money>, charge: Money) {
    forall reordered: seq<Money> | multiset(reordered) == multiset(lines) ::
      OrderTotal(reordered, charge) == OrderTotal(lines, charge)
  }

  lemma {:induction false} SameTotal(lines: seq<Money>, reordered: seq<Money>, charge: Money)
    requires multiset(reordered) == multiset(lines) && TotalOrderFree(lines, charge)
    ensures OrderTotal(reordered, charge) == OrderTotal(lines, charge)
  {
    var weight := NativeMinor(charge.currency);
    PermutationMembers(reordered, lines);
    SumByPermutation(reordered, lines, weight);
    SameCurrencyMembers(lines, charge.currency);
    SameCurrencyMembers(reordered, charge.currency);
    if CountInRange(|lines|) {
      if SameCurrency(lines, charge.currency) {
        NativeMinorSum(lines, charge.currency);
        NativeMinorSum(reordered, charge.currency);
        OneCurrencyTotal(charge, lines);
        OneCurrencyTotal(charge, reordered);
      } else {
        ForeignReported(charge, lines);
        ForeignReported(charge, reordered);
      }
    }
  }

  lemma SameCurrencyMembers(lines: seq<Money>, currency: Currency)
    ensures SameCurrency(lines, currency) <==> forall line | line in lines :: Native(line, currency)
  {
    assert forall i :: 0 <= i < |lines| ==> lines[i] in lines;
  }

  function IsNative(currency: Currency): Money -> bool {
    (line: Money) => Native(line, currency)
  }

  lemma {:induction false} SelectNative(lines: seq<Money>, currency: Currency)
    ensures SameCurrency(Select(lines, IsNative(currency)), currency)
    ensures SumMinor(Select(lines, IsNative(currency))) == SumBy(lines, NativeMinor(currency))
  {
    if lines != [] {
      SelectNative(lines[1..], currency);
      var rest := Select(lines[1..], IsNative(currency));
      assert ([lines[0]] + rest)[1..] == rest;
    }
  }

  /** Otherwise the bound is reported when native lines come first, the currency when a foreign one does. */
  lemma {:induction false} TwoErrors(lines: seq<Money>, charge: Money)
    requires !TotalOrderFree(lines, charge)
    ensures var native, foreign := Select(lines, IsNative(charge.currency)), Reject(lines, IsNative(charge.currency));
            && multiset(native + foreign) == multiset(lines) == multiset(foreign + native)
            && OrderTotal(native + foreign, charge) == Err(MoneyFailure(MinorOutOfRange))
            && OrderTotal(foreign + native, charge) == Err(MoneyFailure(CurrencyMismatch))
  {
    var p := IsNative(charge.currency);
    var native, foreign := Select(lines, p), Reject(lines, p);
    SelectSplits(lines, p);
    SelectNative(lines, charge.currency);
    OneCurrencyTotal(charge, native);
    FailedPrefix(charge, native, foreign);
    PermutationMembers(native + foreign, lines);
    var i :| 0 <= i < |lines| && lines[i].currency != charge.currency;
    RejectMembers(lines, p, lines[i]);
    assert foreign[0] in foreign;
    RejectMembers(lines, p, foreign[0]);
    assert (foreign + native)[0] == foreign[0];
  }

  /** The reported outcome is the same for every order of the lines exactly when the condition holds. */
  lemma TotalFixedExactly(lines: seq<Money>, charge: Money)
    ensures TotalFixed(lines, charge) <==> TotalOrderFree(lines, charge)
  {
    if TotalOrderFree(lines, charge) {
      forall reordered: seq<Money> | multiset(reordered) == multiset(lines)
        ensures OrderTotal(reordered, charge) == OrderTotal(lines, charge)
      {
        SameTotal(lines, reordered, charge);
      }
    } else {
      TwoErrors(lines, charge);
    }
  }

  /** A concrete order-sensitive total: a line that overflows the bound and a line in another currency. */
  lemma ErrorDependsOnOrder()
    ensures var charge, large, foreign := Money("EUR", 1), Money("EUR", MAX_VALUE), Money("NOK", 1);
            && OrderTotal([large, foreign], charge) == Err(MoneyFailure(MinorOutOfRange))
            && OrderTotal([foreign, large], charge) == Err(MoneyFailure(CurrencyMismatch))
            && !TotalOrderFree([large, foreign], charge)
  {
    var charge, large, foreign := Money("EUR", 1), Money("EUR", MAX_VALUE), Money("NOK", 1);
    var lines := [large, foreign];
    assert "EUR"[0] != "NOK"[0];
    assert lines[1] == foreign && lines[1..] == [foreign];
    NativeMinorPositive([foreign], "EUR");
    assert SumBy(lines, NativeMinor("EUR")) == MAX_VALUE + SumBy([foreign], NativeMinor("EUR"));
  }

  // ----- the loop over the lines of the terms

  predicate Clean(t: Terms, line: AgreementLine) {
    line.source.author == t.seller && HasGroup(t.groups, line.group)
  }

  predicate WrongSeller(t: Terms) {
    exists i :: 0 <= i < |t.lines| && t.lines[i].source.author != t.seller
  }

  predicate WrongGroup(t: Terms) {
    exists i :: 0 <= i < |t.lines| && t.lines[i].source.author == t.seller && !HasGroup(t.groups, t.lines[i].group)
  }

  predicate TwinAt(t: Terms, i: nat, j: nat)
    requires i < |t.lines| && j < |t.lines|
  {
    i != j && t.lines[i].id == t.lines[j].id && Clean(t, t.lines[i])
  }

  /** Two lines share an id and at least one of them has no fault of its own. */
  predicate CleanTwin(t: Terms) {
    exists i, j :: 0 <= i < |t.lines| && 0 <= j < |t.lines| && TwinAt(t, i, j)
  }

  /** What the first complaint, if any, says about the terms as a whole. */
  lemma {:induction false} FaultMeans(t: Terms, k: nat)
    requires k <= |t.lines| && forall i :: 0 <= i < k ==> Clean(t, t.lines[i])
    requires forall i, j :: 0 <= i < j < k ==> t.lines[i].id != t.lines[j].id
    ensures match LineFault(t, k)
            case None => !WrongSeller(t) && !WrongGroup(t) && !CleanTwin(t)
            case Some(e) =>
              || (e == SellerMismatch && WrongSeller(t))
              || (e == UnknownFulfillment && WrongGroup(t))
              || (e == DuplicateLine && CleanTwin(t))
    decreases |t.lines| - k
  {
    if k < |t.lines| {
      var line := t.lines[k];
      if j :| 0 <= j < k && t.lines[j].id == line.id {
        assert TwinAt(t, j, k);
      } else if Clean(t, line) {
        FaultMeans(t, k + 1);
      }
    }
  }

  /** A line at fault by itself is reported when it comes first. */
  lemma {:induction false} FaultFirst(t: Terms, i: nat)
    requires i < |t.lines| && !Clean(t, t.lines[i])
    ensures var lines := [t.lines[i]] + Without(t.lines, i);
            && multiset(lines) == multiset(t.lines)
            && LineFault(t.(lines := lines), 0)
               == Some(if t.lines[i].source.author != t.seller then SellerMismatch else UnknownFulfillment)
  {
  }

  /** A clean line followed by its twin reports the duplicate. */
  lemma {:induction false} TwinFirst(t: Terms, i: nat, j: nat)
    requires i < |t.lines| && j < |t.lines| && TwinAt(t, i, j)
    ensures exists lines :: multiset(lines) == multiset(t.lines)
              && LineFault(t.(lines := lines), 0) == Some(DuplicateLine)
  {
    var rest := Without(t.lines, i);
    var k := if j < i then j else j - 1;
    assert rest[k] == t.lines[j];
    var lines := [t.lines[i]] + ([t.lines[j]] + Without(rest, k));
    var u := t.(lines := lines);
    assert lines[0] == t.lines[i] && lines[1] == t.lines[j] && Clean(u, lines[0]);
    assert LineFault(u, 1) == Some(DuplicateLine);
    assert LineFault(u, 0) == LineFault(u, 1);
  }

  /** At most one of the three kinds of complaint is possible. */
  predicate FaultOrderFree(t: Terms) {
    && !(WrongSeller(t) && WrongGroup(t))
    && !(WrongSeller(t) && CleanTwin(t))
    && !(WrongGroup(t) && CleanTwin(t))
  }

  // ----- the outcome of complete terms

  function Outcome(t: Terms): Option<TermsError> {
    var r := Admit(t);
    if r.Ok? then None else Some(r.error)
  }

  predicate EarlyFault(t: Terms) {
    || t.buyer == t.seller
    || !CountInRange(|t.lines|)
    || !(1 <= |t.groups| <= MAX_FULFILLMENT_GROUPS)
    || !GroupsDistinct(t.groups)
  }

  /** Checkable before the call. */
  predicate OutcomeOrderFree(t: Terms) {
    || EarlyFault(t)
    || (FaultOrderFree(t)
        && (WrongSeller(t) || WrongGroup(t) || CleanTwin(t) || TotalOrderFree(LineTotals(t.lines), t.charge)))
  }

  ghost predicate Reordering(t: Terms, u: Terms) {
    && multiset(u.lines) == multiset(t.lines) && multiset(u.groups) == multiset(t.groups)
    && u == t.(lines := u.lines, groups := u.groups)
  }

  /** Every order of the lines and groups has the same outcome. */
  ghost predicate OutcomeFixed(t: Terms) {
    forall u | Reordering(t, u) :: Outcome(u) == Outcome(t)
  }

  lemma {:induction false} SameEarlyFault(t: Terms, u: Terms)
    requires Reordering(t, u)
    ensures EarlyFault(t) <==> EarlyFault(u)
    ensures EarlyFault(t) ==> Outcome(t) == Outcome(u)
  {
    PermutationMembers(t.lines, u.lines);
    PermutationMembers(t.groups, u.groups);
    SameGroupsDistinct(t.groups, u.groups);
  }

  lemma {:induction false} SameGroupsDistinct(a: seq<Group>, b: seq<Group>)
    requires multiset(a) == multiset(b)
    ensures GroupsDistinct(a) <==> GroupsDistinct(b)
  {
    assert GroupsDistinct(a) <==> DistinctBy(a, GroupId);
    assert GroupsDistinct(b) <==> DistinctBy(b, GroupId);
    if DistinctBy(a, GroupId) {
      DistinctByPermutation(a, b, GroupId);
    }
    if DistinctBy(b, GroupId) {
      DistinctByPermutation(b, a, GroupId);
    }
  }

  lemma {:induction false} SameClean(t: Terms, u: Terms, line: AgreementLine)
    requires Reordering(t, u)
    ensures Clean(t, line) <==> Clean(u, line)
  {
    PermutationMembers(t.groups, u.groups);
    HasGroupMember(t.groups, line.group);
    HasGroupMember(u.groups, line.group);
  }

  /** Reordering keeps each kind of fault. */
  lemma {:induction false} FaultsKept(t: Terms, u: Terms)
    requires Reordering(t, u)
    ensures WrongSeller(t) ==> WrongSeller(u)
    ensures WrongGroup(t) ==> WrongGroup(u)
    ensures CleanTwin(t) ==> CleanTwin(u)
  {
    PermutationMembers(t.lines, u.lines);
    if i :| 0 <= i < |t.lines| && t.lines[i].source.author != t.seller {
      assert t.lines[i] in u.lines;
    }
    if i :| 0 <= i < |t.lines| && t.lines[i].source.author == t.seller && !HasGroup(t.groups, t.lines[i].group) {
      SameClean(t, u, t.lines[i]);
      assert t.lines[i] in u.lines;
    }
    if i, j :| 0 <= i < |t.lines| && 0 <= j < |t.lines| && TwinAt(t, i, j) {
      TwinKept(t, u, i, j);
    }
  }

  lemma {:induction false} TwinKept(t: Terms, u: Terms, i: nat, j: nat)
    requires Reordering(t, u) && i < |t.lines| && j < |t.lines| && TwinAt(t, i, j)
    ensures CleanTwin(u)
  {
    SameClean(t, u, t.lines[i]);
    if i < j {
      TwoMembers(t.lines, i, j);
    } else {
      TwoMembers(t.lines, j, i);
    }
    var p, q := TwoPlaces(u.lines, t.lines[i], t.lines[j]);
    assert TwinAt(u, p, q);
  }

  lemma {:induction false} TotalsWithout(lines: seq<AgreementLine>, k: nat)
    requires k < |lines|
    ensures multiset(LineTotals(Without(lines, k))) + multiset{lines[k].maximumLineTotal} == multiset(LineTotals(lines))
  {
    assert LineTotals(Without(lines, k)) == Without(LineTotals(lines), k);
  }

  lemma {:induction false} TotalsPermuted(a: seq<AgreementLine>, b: seq<AgreementLine>)
    requires multiset(a) == multiset(b)
    ensures multiset(LineTotals(a)) == multiset(LineTotals(b))
  {
    if a == [] {
      assert |multiset(b)| == |b|;
    } else {
      var k := Pair(a, b);
      TotalsPermuted(a[1..], Without(b, k));
      assert a[1..] == Without(a, 0);
      TotalsWithout(a, 0);
      TotalsWithout(b, k);
    }
  }

  /** Past the early checks, the loop over the lines decides, and then the total. */
  lemma LateOutcome(t: Terms)
    requires !EarlyFault(t)
    ensures LineFault(t, 0).Some? ==> Outcome(t) == LineFault(t, 0)
    ensures LineFault(t, 0).None? ==>
              var total := OrderTotal(LineTotals(t.lines), t.charge);
              Outcome(t) == if total.Err? then Some(PricingError(total.error))
                            else if total.value != t.maximumTotal then Some(TotalMismatch) else None
  {
  }

  lemma {:induction false} SameLineFault(t: Terms, u: Terms)
    requires Reordering(t, u) && FaultOrderFree(t)
    ensures LineFault(t, 0) == LineFault(u, 0)
    ensures LineFault(t, 0).None? <==> !WrongSeller(t) && !WrongGroup(t) && !CleanTwin(t)
  {
    FaultsKept(t, u);
    FaultsKept(u, t);
    FaultMeans(t, 0);
    FaultMeans(u, 0);
  }

  /** Under the condition every reordering has the same outcome. */
  lemma {:induction false} SameOutcome(t: Terms, u: Terms)
    requires Reordering(t, u) && OutcomeOrderFree(t)
    ensures Outcome(u) == Outcome(t)
  {
    SameEarlyFault(t, u);
    if !EarlyFault(t) {
      SameLineFault(t, u);
      LateOutcome(t);
      LateOutcome(u);
      if LineFault(t, 0).None? {
        TotalsPermuted(u.lines, t.lines);
        SameTotal(LineTotals(t.lines), LineTotals(u.lines), t.charge);
      }
    }
  }

  /** Each possible kind of fault can be made the first complaint. */
  lemma {:induction false} OwnFaultsReachable(t: Terms)
    requires !EarlyFault(t)
    ensures WrongSeller(t) ==> exists u :: Reordering(t, u) && Outcome(u) == Some(SellerMismatch)
    ensures WrongGroup(t) ==> exists u :: Reordering(t, u) && Outcome(u) == Some(UnknownFulfillment)
  {
    if i :| 0 <= i < |t.lines| && t.lines[i].source.author != t.seller {
      FaultFirst(t, i);
      Reported(t, [t.lines[i]] + Without(t.lines, i), SellerMismatch);
    }
    if i :| 0 <= i < |t.lines| && t.lines[i].source.author == t.seller && !HasGroup(t.groups, t.lines[i].group) {
      FaultFirst(t, i);
      Reported(t, [t.lines[i]] + Without(t.lines, i), UnknownFulfillment);
    }
  }

  lemma {:induction false} TwinReachable(t: Terms)
    requires !EarlyFault(t) && CleanTwin(t)
    ensures exists u :: Reordering(t, u) && Outcome(u) == Some(DuplicateLine)
  {
    var i, j :| 0 <= i < |t.lines| && 0 <= j < |t.lines| && TwinAt(t, i, j);
    TwinFirst(t, i, j);
    var lines :| multiset(lines) == multiset(t.lines) && LineFault(t.(lines := lines), 0) == Some(DuplicateLine);
    Reported(t, lines, DuplicateLine);
  }

  lemma {:induction false} Reported(t: Terms, lines: seq<AgreementLine>, fault: TermsError)
    requires !EarlyFault(t) && multiset(lines) == multiset(t.lines) && LineFault(t.(lines := lines), 0) == Some(fault)
    ensures exists u :: Reordering(t, u) && Outcome(u) == Some(fault)
  {
    var u := t.(lines := lines);
    SameEarlyFault(t, u);
    LateOutcome(u);
    assert Reordering(t, u);
  }

  function NativeLine(currency: Currency): AgreementLine -> bool {
    (line: AgreementLine) => Native(line.maximumLineTotal, currency)
  }

  lemma {:induction false} SelectTotals(lines: seq<AgreementLine>, currency: Currency)
    ensures LineTotals(Select(lines, NativeLine(currency))) == Select(LineTotals(lines), IsNative(currency))
    ensures LineTotals(Reject(lines, NativeLine(currency))) == Reject(LineTotals(lines), IsNative(currency))
  {
    if lines != [] {
      SelectTotals(lines[1..], currency);
      assert LineTotals(lines)[1..] == LineTotals(lines[1..]);
    }
  }

  lemma TotalsConcat(a: seq<AgreementLine>, b: seq<AgreementLine>)
    ensures LineTotals(a + b) == LineTotals(a) + LineTotals(b)
  {
  }

  /** Faultless lines whose totals are order-sensitive report either money error. */
  lemma {:induction false} TotalsReachable(t: Terms)
    requires !EarlyFault(t) && LineFault(t, 0).None? && !TotalOrderFree(LineTotals(t.lines), t.charge)
    ensures exists u :: Reordering(t, u) && Outcome(u) == Some(PricingError(MoneyFailure(MinorOutOfRange)))
    ensures exists u :: Reordering(t, u) && Outcome(u) == Some(PricingError(MoneyFailure(CurrencyMismatch)))
  {
    var currency := t.charge.currency;
    var native, foreign := Select(t.lines, NativeLine(currency)), Reject(t.lines, NativeLine(currency));
    var x, y := LineTotals(native), LineTotals(foreign);
    SelectSplits(t.lines, NativeLine(currency));
    SelectTotals(t.lines, currency);
    TwoErrors(LineTotals(t.lines), t.charge);
    TotalsConcat(native, foreign);
    TotalsConcat(foreign, native);
    FaultlessTotal(t, native + foreign, x + y, MoneyFailure(MinorOutOfRange));
    FaultlessTotal(t, foreign + native, y + x, MoneyFailure(CurrencyMismatch));
  }

  lemma {:induction false} FaultlessTotal(t: Terms, lines: seq<AgreementLine>, totals: seq<Money>, error: PricingError)
    requires !EarlyFault(t) && LineFault(t, 0).None? && multiset(lines) == multiset(t.lines)
    requires totals == LineTotals(lines) && OrderTotal(totals, t.charge) == Err(error)
    ensures exists u :: Reordering(t, u) && Outcome(u) == Some(PricingError(error))
  {
    var u := t.(lines := lines);
    SameEarlyFault(t, u);
    FaultMeans(t, 0);
    FaultMeans(u, 0);
    FaultsKept(u, t);
    LateOutcome(u);
    assert Reordering(t, u);
  }

  /** The outcome of terms is the same for every order of lines and groups exactly when at most one kind
      of line fault is possible and, if none is, the totals are order-free. */
  lemma OutcomeFixedExactly(t: Terms)
    ensures OutcomeFixed(t) <==> OutcomeOrderFree(t)
  {
    if OutcomeOrderFree(t) {
      forall u | Reordering(t, u)
        ensures Outcome(u) == Outcome(t)
      {
        SameOutcome(t, u);
      }
    } else {
      OwnFaultsReachable(t);
      if CleanTwin(t) {
        TwinReachable(t);
      }
      FaultMeans(t, 0);
      if LineFault(t, 0).None? {
        TotalsReachable(t);
      }
    }
  }
}
