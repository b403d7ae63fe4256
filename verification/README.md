# A verified model of the Radroots exact commerce kernel and canonical event codecs

This project models, in Dafny, the arithmetic, ledger and encoding logic that the Radroots libraries
rely on never being wrong, and proves what that logic promises for all inputs and all runs:

- **Exact commerce** (`crates/domain`): the canonical bounded decimal, unit conversion, half-even line
  pricing in checked 128-bit arithmetic, tier selection, weight pricing under a cap, listing options,
  agreement lines and terms that recompute their own totals, the seven-category stock ledger, and the
  allocation of agreed lines to stock pools.
- **Canonical events** (`crates/event`, `crates/event_codec`): deletion requests with their bitset kind
  collector and byte budget, from authoring through their tags to reception and the suppression of events;
  comments with hand-counted element totals, from authoring to reception; calendar dates; and timed calendar
  events from the authoring API through their tags to parsing and admission.
- **Blossom** (`crates/blossom`): SHA-256 text, hash paths and upload authorization claims.

## How the model is built

There is one module per source file, plus small modules for what they share: machine integers
(`Results`), products and quotients (`Arithmetic`), digits (`Digits`), UTF-8 lengths (`Text`) and the
encoding they measure (`Utf8`), bits (`Bits`), string order (`Lexicographic`), sums and permutations
(`Sequences`), tag selection (`Tags`), a compact JSON printer (`Json`) and a reader for it (`JsonReader`).
Received events are read by `DeletionInbound` and `CommentInbound` over `Coordinates` (ids, keys and
coordinates) and `InboundBudget`, and `Suppression` decides what deletion requests hide. The calendar file
is split by concern: dates (`Calendar`), shared tags and budget (`CalendarTags`), shared metadata
(`CalendarMetadata`), times and whole events (`TimedEvents`) and the authoring API (`EventBuilder`).
`ErrorOrder` holds what is true of the errors of `Pricing` and `Agreements` under reordering, and
`AllocationErrors` and `CommentErrors` which error an allocation or a received comment reports.

- **Machine integers** are unbounded integers behind explicit range tests. A checked operation returns an
  `Option`, so "this error cannot happen" is a theorem about the whole expression, and a saturating
  addition is written with its ceiling.
- **The value of a decimal** is `Micro`, its count of millionths. It is exact because a scale never
  exceeds six, and `MicroIsRationalOrder` ties it to cross-multiplied fractions. `Scaled(c, n)` is
  `c * 10^n` (`Digits.ScaledProduct`), written as repeated multiplication by ten.
- **Loops of the source** are methods with invariants. Each is proved equal to a specification function,
  or to state its property outright, and the theorems are about the specification. The 1024-word bitset
  is an array; its words are naturals below 2^64 with `&` and `|` defined bit by bit. Byte counters that
  the source threads as mutable references travel in a `Meter` value that each step returns.
- **Strings** are sequences of Unicode scalar values, ordered code point by code point as Rust orders
  UTF-8 strings, and measured by `Utf8Len` where the source takes a byte length. Hexadecimal and date
  parsers index characters instead of bytes. Every non-ASCII text is refused by both with the same error,
  and `HashPath::parse` cuts its prefix at 64 bytes as the source does.
- **Tables and tags** are pinned from outside the code that uses them: by the repository's own readers of what
  it writes, by the values of the agreement or record they act on, or by a written-out table.
- **Values from elsewhere** are parameters or opaque tokens: event ids are 64 hexadecimal characters,
  authored coordinates are texts of at most 4096 bytes with a kind of at most 65535, server domains and claim content
  are strings accepted by a predicate that is a parameter, and timestamps and clocks are arguments. So are
  the grammars that a URL, curve or time zone library decides for calendar metadata (`Grammar`).

Two findings deserve mention.

- Whether terms are accepted never depends on the order of lines and groups, but the reported error can.
  `ErrorOrder.TotalFixedExactly` and `ErrorOrder.OutcomeFixedExactly` say exactly when it does not. An order
  total is order-free when its count is out of range, all lines share the charge's currency, or the lines in
  that currency fit the money bound by themselves. Terms are order-free when an early check fails, or at most
  one kind of line fault is possible and, without any, the total is order-free.
- `TimedEvents.AdmittedExactly`: the parser tolerates leading zeros in times and day indices, and admission
  then refuses every one of them. What is admitted is, key by key, what the authoring API would have written.

## Model

| member | source | states |
|---|---|---|
| Amount.MicroIsRationalOrder | crates/domain/src/amount.rs:139-144 | The count of millionths orders decimals as the rationals coefficient over ten to the scale, across different scales |
| Amount.StrippedUnique | crates/domain/src/amount.rs:73-92 | Two forms without a fractional trailing zero and with one value are structurally equal |
| Amount.Normalized | crates/domain/src/amount.rs:83-92 | Stripping fractional zeros leaves none and keeps the value exactly |
| Amount.Normalize | crates/domain/src/amount.rs:83-92 | The in-place stripping loop computes that normal form |
| Amount.FromParts | crates/domain/src/amount.rs:73-81 | Construction succeeds exactly within the scale and coefficient bounds, keeps the value and reports the right bound otherwise |
| Amount.Aligned | crates/domain/src/amount.rs:107-111 | The unchecked alignment product always fits the machine word and denotes the same value |
| Amount.FromResultExact | crates/domain/src/amount.rs:113-116 | A computed result is admitted exactly when some decimal has its value |
| Amount.CheckedAddExact | crates/domain/src/amount.rs:119-126 | Addition succeeds exactly when the exact sum is representable and then returns it |
| Amount.CheckedSubExact | crates/domain/src/amount.rs:129-136 | Subtraction succeeds exactly when the exact difference is representable; the negative error means exactly that |
| Amount.AddThenSub | crates/domain/src/amount.rs:119-136 | Subtracting what was added returns the first operand, structurally, and addition commutes |
| Amount.CmpIsRational | crates/domain/src/amount.rs:139-144 | Comparison is the rational order and its equality is structural equality |
| Amount.ParseCoefficient | crates/domain/src/amount.rs:178-185 | The digit loop, which may stop early, returns the value of the digits or the range error |
| Amount.FromStr | crates/domain/src/amount.rs:152-189 | The parsing method computes the specification parser on every string |
| Amount.ParseGroups | crates/domain/src/amount.rs:152-189 | An accepted text is canonical whole digits and, after a point, digits that do not end in zero; it denotes their value at that scale |
| Amount.PrintAfterParse | crates/domain/src/amount.rs:152-205 | Printing any accepted text gives back that text |
| Amount.ParseAfterPrint | crates/domain/src/amount.rs:152-205 | Parsing the printed form of any decimal gives back that decimal |
| Monetary.MinorFromStr | crates/domain/src/money.rs:67-91 | The digit loop computes the specification parser; no step overflows |
| Monetary.MinorTextRoundTrip | crates/domain/src/money.rs:67-97 | A text parses to an amount exactly when it is the printed form of that amount |
| Monetary.CheckedAdd | crates/domain/src/money.rs:144-152 | Money adds exactly when the currencies agree and the sum is in bounds |
| Monetary.AddSubInverse | crates/domain/src/money.rs:144-169 | Addition and subtraction undo each other, and subtraction succeeds exactly when it is defined |
| Pricing.RoundHalfEven | crates/domain/src/pricing.rs:195-238 | The reference rounding: the nearest integer, ties to the even neighbour |
| Pricing.HalfEvenUnique | crates/domain/src/pricing.rs:195-238 | A fraction has only one half-even rounding |
| Pricing.FactorsInRange | crates/domain/src/pricing.rs:204-222 | Every factor of the price fits: numerator below 10^37, denominator below 10^22 |
| Pricing.NetLineExact | crates/domain/src/pricing.rs:195-238 | For all inputs the checked evaluation is the half-even rounding of rate times amount times one minus discount over basis, or exactly the money bound error; no arithmetic error is reachable |
| Pricing.NetPriceMonotone | crates/domain/src/pricing.rs:195-238 | The price rises with rate and amount and falls with basis and discount, as rationals across scales, and so does success |
| Pricing.CheckedOrderTotal | crates/domain/src/pricing.rs:181-193 | The summing loop computes the specification fold |
| Pricing.OrderTotalExact | crates/domain/src/pricing.rs:181-193 | An order total exists exactly for 1 to 32 lines of one currency whose exact sum is in bounds, and is that sum |
| Pricing.SplitBound | crates/domain/src/pricing.rs:181-238 | Splitting an amount into n lines changes the order total by at most (n + 1) / 2 minor units |
| Pricing.NewFixedPrice | crates/domain/src/pricing.rs:79-104 | The tier loop accepts exactly strictly ascending tiers of the base currency and otherwise reports the first fault |
| Pricing.SelectTierSound | crates/domain/src/pricing.rs:124-142 | The selected tier has the greatest threshold reached by the amount; none is selected exactly when none is reached |
| Pricing.GreatestReachedUnique | crates/domain/src/pricing.rs:124-142 | That tier is unique |
| Pricing.LineUsesGreatestTier | crates/domain/src/pricing.rs:124-142 | A priced line carries that tier's rate and threshold and its total is the exact rounded price |
| Pricing.LineFailsOnlyOnBound | crates/domain/src/pricing.rs:124-142 | The only error a line can report is the money bound |
| Quantities.ConvertQuantity | crates/domain/src/quantity.rs:58-98 | The loop that moves the decimal point computes the specification conversion |
| Quantities.ConvertExact | crates/domain/src/quantity.rs:58-98 | Conversion succeeds exactly when the target unit can express the same physical value, preserves it, and otherwise reports the one error that applies |
| Quantities.ConvertBack | crates/domain/src/quantity.rs:58-98 | Converting there and back is the identity |
| Quantities.AddPhysical | crates/domain/src/quantity.rs:101-106 | Quantities of one unit add exactly when the sum of their physical values is expressible |
| Quantities.SubPhysical | crates/domain/src/quantity.rs:109-114 | Quantities of one unit subtract exactly when the difference is not negative and expressible; the negative error means exactly that |
| Quantities.SubUndoesAdd | crates/domain/src/quantity.rs:101-114 | Subtracting what was added returns the first quantity |
| Quantities.QuantityErrors | crates/domain/src/quantity.rs:40-114 | Only a fractional count is refused by construction, and only quantities of different units for their units |
| Quantities.ConvertCommutesWithAdd | crates/domain/src/quantity.rs:58-106 | Adding then converting agrees with converting then adding, including success |
| VariablePrice.WeightAdmittedExactly | crates/domain/src/variable_price.rs:25-52 | A weight is admitted exactly when its bounds are ordered, whole for counted goods, its currencies agree and the exact price of its minimum is within the cap |
| VariablePrice.TotalAtExact | crates/domain/src/variable_price.rs:81-101 | A measurement is priced exactly when its unit and range fit and its exact rounded price is within the cap |
| VariablePrice.AdmissibleDownwardClosed | crates/domain/src/variable_price.rs:25-101 | Every smaller measurement in range is admissible at no higher total, never above the cap |
| VariablePrice.MinimumAdmissible | crates/domain/src/variable_price.rs:25-101 | The total at the minimum is the one the constructor checked |
| Listings.TextAdmittedExactly | crates/domain/src/listing.rs:622-629 | A text is admitted exactly by its number of characters; the byte test is implied |
| Listings.ExactMultipleIsDivisibility | crates/domain/src/listing.rs:478-485 | The aligned remainder test is divisibility of the exact values, and no step overflows |
| Listings.OptionAdmittedExactly | crates/domain/src/listing.rs:391-422 | An option is built exactly when its title fits, its minimum is divisible by its increment and, for whole units, increment and supply are whole; the scale test of the minimum is implied |
| Listings.ValidateAmountExact | crates/domain/src/listing.rs:445-454 | The amounts sold are exactly k increments with k at least minimum over increment; the scale test for whole units is implied |
| Agreements.RepricingAgrees | crates/domain/src/agreement.rs:38-75 | Re-pricing the terms taken from a priced line gives that line's total |
| Agreements.ListedLineAdmitted | crates/domain/src/agreement.rs:116-151 | A line built from a listing's own price is admitted unless its lot label is malformed |
| Agreements.AgreedTotalExact | crates/domain/src/agreement.rs:63-75 | The agreed total is the exact rounded price when the retained threshold is reached, with each error placed |
| Agreements.LineAdmittedExactly | crates/domain/src/agreement.rs:116-151 | A line is admitted exactly when it names its option, obeys the purchase rules, has an admissible label and declares the exact rounded price of its retained inputs or its cap |
| Agreements.NewTerms | crates/domain/src/agreement.rs:269-327 | The early-return loops over lines and groups compute the specification |
| Agreements.AdmitExact | crates/domain/src/agreement.rs:269-327 | Terms are admitted exactly when parties differ, counts fit, ids are distinct, sources are the seller's, groups exist, currencies agree and the exact sum is the declared total |
| Agreements.AdmissionIgnoresOrder | crates/domain/src/agreement.rs:269-327 | Permuting lines and groups never changes admission |
| ErrorOrder.TotalFixedExactly | crates/domain/src/pricing.rs:181-193 | Every order of the lines has the same outcome if and only if the count is out of range, one currency is used, or the lines in the charge's currency fit the bound by themselves |
| ErrorOrder.TwoErrors | crates/domain/src/pricing.rs:181-193 | Otherwise the bound is reported when native lines come first and the currency when foreign ones do |
| ErrorOrder.ErrorDependsOnOrder | crates/domain/src/pricing.rs:181-193 | A concrete pair of lines whose two orders report different errors |
| ErrorOrder.FaultMeans | crates/domain/src/agreement.rs:269-327 | The first complaint of the loop over the lines tells which kind of fault the terms have |
| ErrorOrder.OutcomeFixedExactly | crates/domain/src/agreement.rs:269-327 | Terms have the same outcome in every order of lines and groups if and only if an early check fails, or at most one kind of line fault is possible and, without one, the total is order-free |
| Stock.TicksForExact | crates/domain/src/stock.rs:168-184 | A quantity has ticks exactly when units match and its value is a whole number of ticks; the range error is unreachable |
| Stock.TicksForMonotone | crates/domain/src/stock.rs:168-184 | Ticks order quantities strictly as their values do |
| Stock.TicksForAdditive | crates/domain/src/stock.rs:168-184 | The ticks of a sum are the sum of the ticks |
| Stock.NewBalances | crates/domain/src/stock.rs:244-264 | Balances are admitted exactly when the seven categories sum to the introduced stock |
| Stock.MoveExact | crates/domain/src/stock/movements.rs:37-149 | A move between any two categories succeeds exactly on a positive quantity its source holds, shifts exactly that quantity and reports the right error otherwise; its target never overflows |
| Stock.AddFollowsEntry | crates/domain/src/stock.rs:316-343 | Adding stock raises available and introduced alike, exactly when the introduced bound allows it |
| Stock.CorrectionIsMove | crates/domain/src/stock.rs:316-343 | Removing and spoiling are moves out of the available stock |
| Stock.StepExact | crates/domain/src/stock.rs:277-343 | Every public movement succeeds exactly on a positive quantity within its source or headroom; the closing re-validation never rejects it; StepEffects says which fields that is |
| Stock.StepEffects | crates/domain/src/stock.rs:277-343 | The effect of each of the twelve movements on the eight fields of the record, written out field by field, and the error where it fails |
| Stock.RunConserves | crates/domain/src/stock.rs:244-343 | After every run the categories sum to the introduced stock and each is its opening balance plus the signed sum of its movements |
| Stock.RunSucceedsExactly | crates/domain/src/stock.rs:277-343 | A run succeeds exactly when each step is allowed by the balances its predecessors leave |
| Stock.RunIgnoresOrder | crates/domain/src/stock.rs:277-343 | Two successful orders of the same movements end in the same balances |
| Stock.CumulativeNeverShrinks | crates/domain/src/stock/movements.rs:37-149 | Consumed, wasted, removed and introduced stock never decrease over a run |
| Stock.HoldThenRelease | crates/domain/src/stock.rs:277-311 | Releasing a hold undoes it, and so does restoring a quarantine |
| Allocations.TicksInPhysical | crates/domain/src/stock/allocation.rs:299-318 | The ticks a quantity converts to keep its physical value, whatever unit it was stated in |
| Allocations.TicksInExact | crates/domain/src/stock/allocation.rs:299-318 | A quantity is a number of ticks exactly when the pool's unit can express it and that many ticks have its physical value |
| Allocations.MappingBuiltExactly | crates/domain/src/stock/mapping.rs:51-77 | A mapping is built exactly at a positive version from a positive quantity that the pool counts exactly; its second test for a zero draw never fires |
| Allocations.DrawExact | crates/domain/src/stock/mapping.rs:105-116 | A draw exists exactly when per-sale ticks times sold amount is a whole number of ticks in range, and is that product |
| Allocations.DrawPhysical | crates/domain/src/stock/mapping.rs:105-116 | A draw is worth the sold amount times the declared per-sale quantity |
| Allocations.LineDrawExact | crates/domain/src/stock/allocation.rs:263-289 | A line draws a positive number of ticks exactly when its mapping is its own, its pool is observed, and those ticks are worth its agreed maximum weight or its amount times the per-sale quantity |
| Allocations.ResolveAllocations | crates/domain/src/stock/allocation.rs:225-346 | The nested loops over lines and claims compute the specification |
| Allocations.ResolveLineExact | crates/domain/src/stock/allocation.rs:263-335 | A line resolves exactly when its draw is known and, with explicit claims, they are current, whole and worth it exactly |
| Allocations.ResolvesExactly | crates/domain/src/stock/allocation.rs:225-346 | Stock-backed terms resolve exactly when counts fit, no pool is observed twice and no line claims one twice, versions and mappings fit, every line is covered exactly and no claim is left over |
| Allocations.LineCoveredExactly | crates/domain/src/stock/allocation.rs:225-346 | The allocations of each line are worth, over all pools and units, exactly the ticks it must draw, which LineDrawExact gives from the agreement itself |
| Allocations.LineWorthCovered | crates/domain/src/stock/allocation.rs:225-346 | Every resolved line is covered for exactly its physical requirement, stated from the agreement and the mapping alone, and a line of variable weight for every measurement that can be priced |
| Allocations.ClaimsDrawn | crates/domain/src/stock/allocation.rs:290-327 | Every explicit claim is drawn from the pool it names in that pool's own ticks, and nothing else is drawn |
| Allocations.SortAllocationsExact | crates/domain/src/stock/allocation.rs:344-345 | Sorting permutes the allocations into ascending order of pool and line |
| Allocations.TotalsExact | crates/domain/src/stock/allocation.rs:206-212 | The running totals are exact per pool and fail exactly when some pool's total is out of range |
| Allocations.NewHoldExact | crates/domain/src/stock/allocation.rs:94-115 | A hold exists exactly for a positive quantity the pool has available at a version that can advance |
| Allocations.PlanAllocations | crates/domain/src/stock/allocation.rs:198-218 | The loops over allocations and totals compute the specification |
| Allocations.PlanSucceedsExactly | crates/domain/src/stock/allocation.rs:198-218 | A plan exists exactly when the terms resolve and every drawn pool has its total available at a version that can advance |
| Allocations.PlanHoldsTotals | crates/domain/src/stock/allocation.rs:198-218 | A plan holds each drawn pool once, ascending, for the sum of its allocations, and changes nothing else |
| AllocationErrors.DrawTold | crates/domain/src/stock/allocation.rs:263-289 | A line is stale exactly when its mapping is not the current one for it; any other failure to draw is invalid input |
| AllocationErrors.LineTold | crates/domain/src/stock/allocation.rs:290-335 | The first faulty claim of a line decides its error, by the ticks covered so far; faultless claims that do not cover it exactly are invalid input |
| AllocationErrors.ResolutionTold | crates/domain/src/stock/allocation.rs:225-346 | Counts and repetitions are reported first, then the first line that fails, then claims or draws left over |
| AllocationErrors.HoldTold | crates/domain/src/stock/allocation.rs:94-115 | A hold is refused for its input, then for stock that is not there, then for a version that cannot advance |
| AllocationErrors.PlanTold | crates/domain/src/stock/allocation.rs:198-218 | Once terms resolve, a plan fails for capacity when a total is out of range, and otherwise at the least drawn pool that cannot be held, stale or over capacity |
| Json.CanonicalStringBytesExact | crates/event/src/deletion.rs:473-481 | The counted bytes are the exact length of the escaped JSON string; the saturating sum never saturates |
| Json.EscapeTable | crates/event/src/deletion.rs:473-481 | The escape and the cost of every character, as a table |
| Utf8.EncodedLength | crates/event/src/deletion.rs:445-481 | The byte length used throughout is the length of the UTF-8 encoding |
| Utf8.OrderIsByteOrder | crates/event/src/deletion.rs:269-287 | Comparing texts code point by code point is comparing their UTF-8 bytes |
| Utf8.EncodingDetermines | crates/event/src/deletion.rs:269-287 | Different texts have different encodings |
| Text.WhiteSpaceTable | crates/event/src/comment.rs:532-544 | The characters that make a comment blank, as Unicode lists them |
| JsonReader.ReadPrintedString | crates/event/src/deletion.rs:473-481 | The printer's escapes follow section 7 of RFC 8259: a printed string reads back as itself |
| JsonReader.ReadPrintedTags | crates/event/src/deletion.rs:30-40 | A printed tag list reads back as itself, whatever its elements hold |
| JsonReader.ReadAfterPrint | crates/event/src/deletion.rs:30-40 | The compact text of a signed event reads back as exactly its seven fields |
| Json.SignedEventBytes | crates/event/src/deletion.rs:30-40 | The length of a compact signed event is a fixed part plus timestamp, tags and content |
| Deletion.DrainWord | crates/event/src/deletion.rs:366-371 | The loop that clears the lowest set bit yields the word's bits in ascending order and ends by number of set bits |
| Deletion.MarkKinds | crates/event/src/deletion.rs:339-353 | The bitset holds exactly the kinds seen and the counter their number |
| Deletion.DrainAll | crates/event/src/deletion.rs:364-373 | Draining all words yields exactly the recorded kinds, strictly ascending |
| Deletion.CollectKindHints | crates/event/src/deletion.rs:332-374 | The bitset collector refines sort-then-dedup of the kinds, with the tag count error |
| Sequences.SortDedupExact | crates/event/src/deletion.rs:332-374 | That reference list is strictly ascending and has exactly the kinds of the targets |
| Deletion.AddTagSize | crates/event/src/deletion.rs:445-471 | The counters stay equal to the exact printed and element sizes after each tag, or the oversized element is reported |
| Deletion.AddTags | crates/event/src/deletion.rs:396-424 | A group of tags is measured exactly, or its first oversized value is reported |
| Deletion.ValidateWireSize | crates/event/src/deletion.rs:376-443 | The byte-counting loops compute the exact measured size and the errors in their order |
| Deletion.NewDeletionRequest | crates/event/src/deletion.rs:244-296 | The constructor computes the specification |
| Deletion.NeighbourTestFindsAll | crates/event/src/deletion.rs:269-287 | The adjacent-pair test after sorting passes exactly when all texts of the input are distinct |
| Deletion.ReportedIsLeast | crates/event/src/deletion.rs:269-287 | The duplicate that is reported is the least duplicated text of the input |
| Deletion.DuplicateReported | crates/event/src/deletion.rs:244-296 | Exactly when each duplicate error is reported: a duplicated event first, and the least duplicated text of its list |
| Deletion.ElementErrorUnreachable | crates/event/src/deletion.rs:376-471 | Because a coordinate has at most 4096 bytes, the oversized element error is never reported |
| Deletion.AcceptedIsCanonical | crates/event/src/deletion.rs:244-296 | An accepted request holds the same targets strictly sorted and exactly their kinds, ascending |
| Deletion.AcceptsExactly | crates/event/src/deletion.rs:244-296 | A request is accepted exactly when it has targets, all distinct, and its content, tag count, tag bytes and exact measured size fit their limits |
| Deletion.AuthorIgnoresOrder | crates/event/src/deletion.rs:244-296 | Any permutation of the inputs has the identical outcome, request or error |
| Deletion.StoredSizeIsPrinted | crates/event/src/deletion.rs:376-481 | The size measured on unsorted targets is the exact length of the signed JSON of the sorted request at the largest timestamp, and bounds it at every timestamp; WireTagsExact says which tags those are |
| Deletion.MeasuredIsPrinted | crates/event_codec/src/deletion/authored.rs:16-47 | The measured size of any tag list is its printed size at the largest timestamp; WireTagsExact says which tags a request has |
| Deletion.WireTagsExact | crates/event_codec/src/deletion/authored.rs:15-47 | An accepted request is written as one `e` tag for each event id given, one `a` tag for each coordinate and one `k` tag for each kind, no other tags, in that order and ascending within each |
| Coordinates.ParseIdExact | crates/event/src/id.rs:554-577 | An id is read exactly from 64 hexadecimal digits of either case, and kept in lower case |
| Coordinates.ParseU32Exact | crates/event/src/id.rs:385-387 | A kind is read exactly from its canonical digits behind zeros and at most one plus sign |
| Coordinates.ParseCoordinateExact | crates/event/src/id.rs:367-406 | A coordinate is read exactly from a spelling of at most 4096 bytes, of a replaceable kind without an identifier or an addressable kind with any |
| Coordinates.DTagExact | crates/event/src/id.rs:674-692 | An identifier is 1 to 512 bytes without whitespace or control characters |
| Coordinates.ParseAddressableExact | crates/event/src/id.rs:659-672 | The same spellings, of any kind, with a visible identifier of 1 to 512 bytes |
| Coordinates.ParseCanonical | crates/event/src/id.rs:367-406 | The canonical text of a coordinate reads back as that coordinate |
| Coordinates.TextDetermines | crates/event/src/id.rs:367-406 | Distinct coordinates have distinct canonical texts |
| InboundBudget.ValidateBudgets | crates/event_codec/src/deletion/reconciliation_v1.rs:936-1001 | The counting loops pass exactly what is within the five budgets and otherwise report the first budget exceeded and its exact size; no counter saturates before it is refused |
| DeletionInbound.ProjectRequest | crates/event_codec/src/deletion/reconciliation_v1.rs:787-934 | The early-returning loops over a received request compute the specification |
| DeletionInbound.TargetsExact | crates/event_codec/src/deletion/reconciliation_v1.rs:804-853 | The targets read are exactly those named by `e` and `a` tags, and reading fails exactly when some such tag is malformed |
| DeletionInbound.KindsExact | crates/event_codec/src/deletion/reconciliation_v1.rs:863-911 | The advisory kinds read are exactly those that some well-formed `k` tag names |
| DeletionInbound.AuthoredProjects | crates/event_codec/src/deletion/reconciliation_v1.rs:787-934 | Every accepted request, written out and received at any time, is read as exactly the events, coordinates and kinds it was given |
| Suppression.EvaluateSuppression | crates/event_codec/src/deletion/reconciliation_v1.rs:283-383 | The loop over received requests computes the specified decision |
| Suppression.SuppressedExactly | crates/event_codec/src/deletion/reconciliation_v1.rs:283-383 | An event is suppressed exactly when some request of its own author names its id, or names its coordinate no earlier than the event; requests for deletion are never suppressed |
| Suppression.ReasonsExact | crates/event_codec/src/deletion/reconciliation_v1.rs:283-383 | Exactly when each reason is given for the decision |
| Suppression.DecisionIgnoresOrder | crates/event_codec/src/deletion/reconciliation_v1.rs:283-383 | The decision and its evidence do not depend on the order or repetition of the requests |
| Suppression.CoordinateOfEvent | crates/event_codec/src/deletion/reconciliation_v1.rs:385-402 | The coordinate an event is addressed by is its kind, its author and its first `d` value |
| Suppression.AuthoredDeletes | crates/event_codec/src/deletion/reconciliation_v1.rs:283-383 | End to end: a request authored, written, received and evaluated suppresses exactly its author's events that it was given by id or, up to its own time, by coordinate |
| Comments.HandCountExact | crates/event/src/comment.rs:615-767 | The hand-counted element total is the number of elements in the wire tags for every root and position |
| Comments.AddTag | crates/event/src/comment.rs:807-825 | The counters stay equal to the exact sizes after each tag; no addition saturates |
| Comments.AddOptionalRelayTag | crates/event/src/comment.rs:787-805 | The same for a tag with an optional relay element |
| Comments.MeterPosition | crates/event/src/comment.rs:657-751 | Every compatible root and position is measured; the remaining arm is not reachable |
| Comments.ValidateWireSize | crates/event/src/comment.rs:605-785 | The only possible failure is the wire limit, decided on the exact size |
| Comments.NewComment | crates/event/src/comment.rs:532-544 | Construction computes the specification for compatible parts |
| Comments.SizedExactly | crates/event/src/comment.rs:532-544 | A comment is accepted exactly when its content is not blank and within its limit and its exact size fits, keeps what it was given, and otherwise reports the first of these that fails |
| Comments.NewTopLevelEvent | crates/event/src/comment.rs:477-486 | Top-level event comments are always compatible and follow the specification |
| Comments.NewTopLevelAddress | crates/event/src/comment.rs:488-498 | Top-level address comments are always compatible and follow the specification |
| Comments.NewNested | crates/event/src/comment.rs:512-530 | Nested comments are refused exactly when the parent is the root event, and otherwise follow the specification |
| Comments.CommentSizeIsPrinted | crates/event_codec/src/comment/authored.rs:21-103 | The measured size is the exact length of the signed JSON at the largest timestamp, so an accepted comment fits the wire limit at every timestamp; CommentTagsByName and AuthoredProjects say what its tags refer to |
| CommentInbound.KindNumbers | crates/event/src/comment.rs:190-209 | The wire number of each root kind, read back as that kind, and never that of a comment |
| CommentInbound.CommentTagsByName | crates/event_codec/src/comment/authored.rs:21-102 | Among a comment's tags each name selects exactly the tags of its field, and the identifier forms are never written |
| CommentInbound.CommentTagOrder | crates/event_codec/src/comment/authored.rs:21-102 | The order of the names: root, root kind, root author, then parent, parent kind and parent author |
| CommentInbound.CollectParticipants | crates/event_codec/src/comment/inbound/registry_v7.rs:1267-1308 | The skipping loop over `p` tags computes the specification |
| CommentInbound.ParticipantsExact | crates/event_codec/src/comment/inbound/registry_v7.rs:1267-1308 | The participants are exactly the first mentions of valid keys, in order |
| CommentInbound.AddressReferenceExact | crates/event_codec/src/comment/inbound/registry_v7.rs:1337-1365 | A coordinate reference is read exactly from a root kind in canonical digits, a key of either case and a visible identifier |
| CommentInbound.ProjectedExactly | crates/event_codec/src/comment/inbound/registry_v7.rs:825-1086 | A received comment is accepted exactly when kind, content and budgets fit and its tags name one root, one position agreeing with it and the participants; what is read is what they name |
| CommentInbound.ReceivedIsConsistent | crates/event_codec/src/comment/inbound/registry_v7.rs:825-1086 | In every accepted comment a position on the root repeats the root, its kind and its author, a reply answers another event, and the parent's author is mentioned nowhere else |
| CommentErrors.ProjectionTold | crates/event_codec/src/comment/inbound/registry_v7.rs:825-854 | What a refused comment reports before its authority tags are read, in order |
| CommentErrors.AuthorityTold | crates/event_codec/src/comment/inbound/registry_v7.rs:855-911 | The counts of the authority tags are told in turn, then the root, then the parent's kind, then the position |
| CommentErrors.RootTold | crates/event_codec/src/comment/inbound/registry_v7.rs:868-990 | A root is refused for its kind, then its author, then the shape, text, kind and author of its reference, each stated on the tags |
| CommentErrors.EventPositionTold | crates/event_codec/src/comment/inbound/registry_v7.rs:901-973 | A comment on an event, and a reply, are refused for the parent's count, shape, id and agreement with the root, then for its author |
| CommentErrors.AddressPositionTold | crates/event_codec/src/comment/inbound/registry_v7.rs:998-1050 | A comment on an address is refused for its counts, then its coordinate, then its revision, then its author |
| CommentErrors.AuthorsTold | crates/event_codec/src/comment/inbound/registry_v7.rs:1406-1459 | The parent's author is missing without participants, mismatched when named but absent, ambiguous when a reply names none among several |
| CommentInbound.CarriedProjects | crates/event_codec/src/comment/inbound/registry_v7.rs:825-1086 | A list that carries a comment's tags, in any order and among any others, is read as that comment |
| CommentInbound.AuthoredProjects | crates/event_codec/src/comment/inbound/registry_v7.rs:825-1086 | Every comment the constructors accept, written out and received at any time, is read as itself: root, position, kinds, authors and relays |
| CommentInbound.TagsDetermineComment | crates/event_codec/src/comment/authored.rs:21-102 | Two comments with the same tags have the same root and position |
| Calendar.ParsedIsPrinted | crates/event/src/calendar.rs:867-879 | Every accepted date text is the ten-character form of a valid Gregorian date of years 1 to 9999 |
| Calendar.PrintedIsParsed | crates/event/src/calendar.rs:867-879 | Every such date is accepted in that form |
| Calendar.RefusedIsNoDate | crates/event/src/calendar.rs:867-879 | A text is refused as an invalid date exactly when no valid date prints it |
| Calendar.FoldDigitsExact | crates/event/src/calendar.rs:2358-2366 | The digit fold is the value of an all-digit field and refuses any other |
| Calendar.YearsClosedForm | crates/event/src/calendar.rs:2378-2380 | Counting years with the leap rule gives 365n + n/4 - n/100 + n/400 |
| Calendar.NextDayCounts | crates/event/src/calendar.rs:2368-2380 | Day numbers count calendar days one by one through month ends, leap days and year ends |
| Calendar.TextOrderIsChronological | crates/event/src/calendar.rs:863-864 | String order of accepted dates is the order of their day numbers |
| Calendar.WithEndExact | crates/event/src/calendar.rs:974-981 | An end date is refused for its range exactly when it is not on a later day, and otherwise accepted exactly when the event with its end tag stays within the tag budget |
| Calendar.DateTagsByKey | crates/event/src/calendar.rs:2130-2151 | A date event's tags are, key by key and in order, those of its fields |
| CalendarTags.ValidateBudget | crates/event/src/calendar.rs:2323-2356 | The saturating loop over tags and elements computes the specified budget check |
| CalendarTags.BudgetExact | crates/event/src/calendar.rs:2323-2356 | The budget holds exactly when content, tag count, each element and the exact total are within their limits |
| CalendarTags.ValidateBounded | crates/event_codec/src/calendar/decode.rs:417-446 | The early-returning loops accept exactly bounded content, plain keys, small elements and a small exact total |
| CalendarTags.BoundedExact | crates/event_codec/src/calendar/decode.rs:417-446 | Those bounds with every limit and character written out |
| CalendarTags.BudgetIsBounded | crates/event_codec/src/calendar/decode.rs:417-446 | Tags within the authoring budget under plain keys pass the reader's bounds |
| CalendarTags.ParticipantForms | crates/event/src/calendar.rs:2213-2224 | The four forms of a participant tag: a missing relay keeps its place only before a role |
| CalendarTags.RequestForms | crates/event/src/calendar.rs:2231-2237 | The two forms of a calendar request tag |
| CalendarMetadata.GeohashAlphabet | crates/event/src/calendar.rs:1837-1877 | The letters of a geohash: ten digits and the letters other than a, i, l and o |
| CalendarMetadata.GeohashExact | crates/event/src/calendar.rs:1837-1877 | A geohash is 1 to 12 letters of that alphabet in either case, canonical in lower case |
| CalendarMetadata.TagTextExact | crates/event/src/calendar.rs:1825-1836 | A tag text shows something, holds no control character and fits an element; a canonical one has no space at either end |
| CalendarMetadata.StrictRules | crates/event/src/calendar.rs:2037-2063 | Authored participants are at most 1008, each with a lower-case key, a strict relay and a canonical role where it has one; authored requests are strict in calendar and relay |
| CalendarMetadata.CollectParticipants | crates/event_codec/src/calendar/decode.rs:555-588 | The collecting loop computes the specified reading |
| CalendarMetadata.ParticipantsExact | crates/event_codec/src/calendar/decode.rs:555-588 | Participants are read exactly from the tags that would be written for them |
| CalendarMetadata.ReadExact | crates/event_codec/src/calendar/decode.rs:374-415 | Metadata is read exactly from the tags that would be written for it, with readable texts |
| CalendarMetadata.ClosingChecksPass | crates/event/src/calendar.rs:1363-1402 | The closing construction never refuses what the readers accepted |
| CalendarMetadata.MetadataExact | crates/event/src/calendar.rs:2073-2128 | Metadata is parsed and admitted exactly from the tags written for fields the authoring API accepts |
| TimedEvents.CoveredDaysExact | crates/event/src/calendar.rs:1786-1805 | The covered days are exactly the UTC days that some occupied second lies in, and the limit of 366 counts that set |
| TimedEvents.BuildTimeTags | crates/event_codec/src/calendar/encode.rs:53-91 | The pushing loop builds the specified tags, one day tag per covered day |
| TimedEvents.AuthoredCarries | crates/event/src/calendar.rs:2153-2238 | Among an authored event's tags each key selects exactly the tags of its field, and no other key is used |
| TimedEvents.TimeTagOrder | crates/event_codec/src/calendar/encode.rs:53-91 | The order in which an authored event's tags are written |
| Text.ParseU64Exact | crates/event/src/calendar.rs:1814-1824 | A day index is read exactly from its canonical digits behind any zeros, within 64 bits |
| TimedEvents.StandardExact | crates/event_codec/src/calendar/decode.rs:498-505 | A timestamp is read exactly from such digits, and told apart as malformed or out of range |
| TimedEvents.TimesParsedExactly | crates/event_codec/src/calendar/decode.rs:81-111 | Times are parsed exactly as one start tag, at most one end tag and day tags of touched days spell them; the closing construction never refuses |
| TimedEvents.CarriedTimesAdmitted | crates/event_codec/src/calendar/decode.rs:81-111 | Start, end and day tags of a coverable event parse, and admission's time checks return its days |
| TimedEvents.TimesRefused | crates/event/src/calendar.rs:1733-1759 | Times are refused for text that is not canonical, an end before the start, too many touched days, or day tags that are not each of them once |
| TimedEvents.AdmittedCarriesTimes | crates/event/src/calendar.rs:1733-1759 | Times that pass those checks come from exactly the tags that would be written for them |
| TimedEvents.CarriedEventAdmitted | crates/event_codec/src/calendar/decode.rs:68-123 | A bounded list carrying an admissible event is parsed to exactly its fields and admitted |
| TimedEvents.AuthoredRoundTrip | crates/event_codec/src/calendar/decode.rs:68-123 | Authored tags are parsed back to every field of the event and admitted with its days |
| TimedEvents.CarriedWithinBudget | crates/event_codec/src/calendar/decode.rs:417-446 | An event carried by a bounded list is itself within the authoring budget |
| TimedEvents.AdmittedExactly | crates/event/src/calendar.rs:1728-1767 | An event is admitted exactly when it is bounded, of the right kind, any legacy name is canonical, and some event the authoring API accepts has its content and, key by key, its tags |
| TimedEvents.EventRefused | crates/event/src/calendar.rs:1728-1767 | An event is refused for its metadata, then its times, then an image that is not a Blossom one |
| EventBuilder.NewEventAdmissible | crates/event/src/calendar.rs:1139-1165 | The constructor's event is always within the budget it does not check |
| EventBuilder.RunKeepsAdmissible | crates/event/src/calendar.rs:1167-1259 | Every run of setters keeps every field, the day coverage and the budget in order |
| EventBuilder.RunSetsLatest | crates/event/src/calendar.rs:1167-1259 | After every run each of the fifteen fields holds what was last set for it, so setters of different fields do not disturb one another |
| EventBuilder.BuildableExactly | crates/event/src/calendar.rs:1139-1259 | The constructor and setters reach exactly the admissible events |
| Hashes.DecodeHex | crates/blossom/src/hash.rs:33-46 | The loop writing the 32-byte array computes the specified value, with shift and or equal to 16 times high plus low |
| Hashes.EncodeHex | crates/blossom/src/hash.rs:52-59 | The pushing loop prints the specified text |
| Hashes.HexText | crates/blossom/src/hash.rs:52-59 | Two lower-case digits per byte, high half first |
| Hashes.DecodeAfterEncode | crates/blossom/src/hash.rs:33-59 | Reading the printed text gives back the hash |
| Hashes.EncodeAfterDecode | crates/blossom/src/hash.rs:33-59 | Every accepted text is the printed text of its hash |
| Hashes.EmptyParts | crates/blossom/src/hash.rs:101-111 | Splitting an extension leaves an empty part exactly at a leading, trailing or doubled dot |
| Hashes.ExtensionAlphabet | crates/blossom/src/hash.rs:101-111 | The characters an extension may hold, by code point |
| Hashes.ParseAfterPath | crates/blossom/src/hash.rs:164-212 | Parsing a printed path gives back hash and extension |
| Hashes.PathAfterParse | crates/blossom/src/hash.rs:164-212 | Every accepted path is the printed path of a valid value |
| Hashes.PathErrorTold | crates/blossom/src/hash.rs:164-212 | Exactly when a refused path reports its extension, and exactly when its hash |
| Authorization.Parse | crates/blossom/src/authorization.rs:304-358 | The loop over four accumulators computes the specification, error for error |
| Authorization.ParsedExactly | crates/blossom/src/authorization.rs:304-358 | Parsing yields a claim exactly when the tags hold one action, one expiration and the listed servers and hashes in order; ActionTextDecides says which action a text is |
| Authorization.ActionTextDecides | crates/blossom/src/authorization.rs:304-399 | From the tag to the endpoint: a claim is parsed only if its one action tag says one of five words, and it validates only at the endpoints of that word |
| Authorization.FiveActionsAccepted | crates/blossom/src/authorization.rs:35-43 | Exactly those five words are read as actions |
| Authorization.FirstFaultReported | crates/blossom/src/authorization.rs:304-358 | The first faulty tag decides the error, by what the tags before it hold; a missing tag is told only when every tag is sound |
| Authorization.UnrecognisedIgnored | crates/blossom/src/authorization.rs:311-347 | Unrecognised tags anywhere change neither fields nor error |
| Authorization.UploadAuthoredExactly | crates/blossom/src/authorization.rs:547-579 | An upload is authored exactly for a lifetime of 1 to 300 seconds that ends in range |
| Authorization.AuthoredParses | crates/blossom/src/authorization.rs:547-579 | Authored tags parse back to the authored fields wherever unrecognised tags are inserted |
| Authorization.AuthoredValidates | crates/blossom/src/authorization.rs:360-399 | An upload authored, sent with unrecognised tags inserted and parsed validates at its own server and hash exactly when created < now < expiration and, under a policy, its age is within it |
| Authorization.ValidExactly | crates/blossom/src/authorization.rs:360-459 | For any claim, validity is that time window, the policy bounds and the three scope matches |
| Authorization.FaultTold | crates/blossom/src/authorization.rs:360-459 | Which check is told when several fail: times, then the action, then servers, then hashes |

## Left out

- The core crate's decimal and unit code: its rounding lives in an external decimal library.
- Stock obligation, amendment and replacement plans: allocation is modelled, the plans that compare allocations over time are not.
- Calendar date events after authoring, RSVPs and calendar collections: they repeat the shapes that are modelled.
- CommentInbound.ProjectedExactly: the diagnostics that accompany a projection, tag indexes and raw tags are not modelled, and public keys and relay hints are accepted by predicates passed in.
- DeletionInbound.ProjectRequest: targets and kinds are sets, so the order in which a projection lists them and its diagnostics are not modelled, and a budget error does not repeat which budget was exceeded; InboundBudget.ValidateBudgets does.
- Suppression.EvaluateSuppression: signatures are checked before this step and are not modelled.
- Calendar.ParsedIsPrinted: the year, month and day are read from characters rather than bytes.
- TimedEvents.AdmittedExactly: public keys, relay URLs, URIs, image URLs, calendar coordinates and time zone names are accepted by predicates passed in, so the libraries that decide them are not modelled.
- EventBuilder.RunKeepsAdmissible: which rule refused a setter's value is not told apart, and a blank value, which the setters refuse, is not skipped again when tags are written.
- Authorization.AuthoredParses: the server domain grammar and the content rules are predicates passed in.
- Deletion.NewDeletionRequest: the in-place library sort is modelled as stable insertion into a new sequence, so moves in memory are not captured.
- Allocations.SortAllocationsExact: the in-place stable sort is modelled the same way.
- Stock.StepExact: each movement is a function from balances to balances, as the source copies the record it updates; overlapping access to one record is not modelled.
- Allocations.PlanAllocations: the ordered map of totals is a map with a sorted list of its keys.
- Limits carried inside error values, where they are constants of the source, are not repeated in the model's errors.
- Listing content measures, product text, fulfilment windows and the currency registry: opaque values that the modelled checks compare but do not inspect.
- SHA-256 itself, signatures and the event id computation.
- Serialization adapters, error texts and redacted debug output: no hard behaviour.
