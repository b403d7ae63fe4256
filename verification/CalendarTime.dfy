/** UTC-day coverage of timed events: crates/event/src/calendar.rs and the tags that
    crates/event_codec/src/calendar writes and reads. */
module TimedEvents {
  import opened CalendarMetadata
  import opened CalendarTags
  import opened Digits
  import opened Json
  import opened Results
  import opened Sequences
  import opened Tags
  import opened Text

  const SECONDS_PER_DAY: nat := 86_400
  const MAX_COVERED_UTC_DAYS: nat := 366

  datatype TimeError = InvalidRange | InvalidText | CoveredDayLimitExceeded(actual: nat)

  datatype DayRange = DayRange(first: nat, last: nat)

  predicate Inverted(start: U64, end: Option<U64>) {
    end.Some? && end.value <= start
  }

  function Span(start: U64, end: Option<U64>): DayRange
    requires !Inverted(start, end)
  {
    var first := start / SECONDS_PER_DAY;
    DayRange(first, if end.Some? then (end.value - 1) / SECONDS_PER_DAY else first)
  }

  /** `covered_utc_days`. */
  function CoveredUtcDays(start: U64, end: Option<U64>): Result<DayRange, TimeError> {
    if Inverted(start, end) then Err(InvalidRange)
    else
      var days := Span(start, end);
      var actual := days.last - days.first + 1;
      SpanOrdered(start, end);
      if actual > MAX_COVERED_UTC_DAYS then Err(CoveredDayLimitExceeded(actual)) else Ok(days)
  }

  // ----- what coverage means

  lemma SpanOrdered(start: U64, end: Option<U64>)
    requires !Inverted(start, end)
    ensures Span(start, end).first <= Span(start, end).last
  {
  }

  /** The seconds an event occupies: an open event is its start alone. */
  predicate Occupies(start: U64, end: Option<U64>, second: nat) {
    if end.Some? then start <= second < end.value else second == start
  }

  /** The UTC days in which some occupied second lies. */
  ghost function DaysTouched(start: U64, end: Option<U64>): set<nat> {
    set second: nat | second <= U64_MAX && Occupies(start, end, second) :: second / 86_400
  }

  function Interval(first: nat, last: nat): (days: set<nat>)
    requires first <= last
    ensures |days| == last - first + 1
    ensures forall day: nat :: day in days <==> first <= day <= last
    decreases last - first
  {
    if first == last then {first} else {first} + Interval(first + 1, last)
  }

  lemma InSpan(start: U64, end: Option<U64>, day: nat)
    requires !Inverted(start, end)
    ensures day in DaysTouched(start, end) <==> Span(start, end).first <= day <= Span(start, end).last
  {
    var days := Span(start, end);
    if days.first <= day <= days.last {
      var second: nat := if day == days.first then start else 86_400 * day;
      assert Occupies(start, end, second) && second / 86_400 == day;
    }
  }

  /** The range is exactly the set of UTC days the event touches, and the limit counts that set. */
  lemma CoveredDaysExact(start: U64, end: Option<U64>)
    ensures CoveredUtcDays(start, end) == Err(InvalidRange) <==> Inverted(start, end)
    ensures !Inverted(start, end) ==>
              var touched := DaysTouched(start, end);
              && touched == Interval(Span(start, end).first, Span(start, end).last)
              && CoveredUtcDays(start, end)
                 == if |touched| > 366 then Err(CoveredDayLimitExceeded(|touched|)) else Ok(Span(start, end))
  {
    if !Inverted(start, end) {
      var days := Span(start, end);
      SpanOrdered(start, end);
      forall day: nat
        ensures day in DaysTouched(start, end) <==> day in Interval(days.first, days.last)
      {
        InSpan(start, end, day);
      }
      assert DaysTouched(start, end) == Interval(days.first, days.last);
    }
  }

  // ----- writing the tags

  datatype TimeEvent = TimeEvent(
    dTag: string,
    title: string,
    start: U64,
    end: Option<U64>,
    startTzid: Option<string>,
    endTzid: Option<string>,
    description: Option<string>,
    common: Common)

  function DayTag(day: nat): Tag {
    ["D", NatText(day)]
  }

  function DayTags(first: nat, last: nat): (tags: seq<Tag>)
    requires first <= last
    ensures |tags| == last - first + 1
    ensures forall i :: 0 <= i < |tags| ==> tags[i] == DayTag(first + i)
    decreases last - first
  {
    [DayTag(first)] + if first == last then [] else DayTags(first + 1, last)
  }

  function StartTags(start: U64): seq<Tag> {
    [["start", NatText(start)]]
  }

  function Printed(value: Option<U64>): Option<string> {
    if value.Some? then Some(NatText(value.value)) else None
  }

  /** The event's tags by key, its own fields first. */
  function TimeParts(event: TimeEvent, days: DayRange): seq<Part>
    requires days.first <= days.last
  {
    OwnParts(event, days) + CommonParts(event.common)
  }

  function OwnParts(event: TimeEvent, days: DayRange): seq<Part>
    requires days.first <= days.last
  {
    [ Part("d", [["d", event.dTag]]), Part("title", [["title", event.title]]), Part("start", StartTags(event.start)),
      Part("end", OptionalTag("end", Printed(event.end))), Part("D", DayTags(days.first, days.last)),
      Part("start_tzid", OptionalTag("start_tzid", event.startTzid)),
      Part("end_tzid", OptionalTag("end_tzid", event.endTzid))]
  }

  function TimeTags(event: TimeEvent): Result<seq<Tag>, TimeError> {
    var days :- CoveredUtcDays(event.start, event.end);
    Ok(Flatten(TimeParts(event, days)))
  }

  method BuildTimeTags(event: TimeEvent) returns (r: Result<seq<Tag>, TimeError>)
    ensures r == TimeTags(event)
  {
    var days :- CoveredUtcDays(event.start, event.end);
    var tags := BuildOwnTags(event, days);
    FlattenConcat(OwnParts(event, days), CommonParts(event.common));
    r := Ok(tags + CommonTags(event.common));
  }

  lemma FlattenSeven(a: Part, b: Part, c: Part, d: Part, e: Part, f: Part, g: Part)
    ensures Flatten([a, b, c, d, e, f, g]) == a.tags + b.tags + c.tags + d.tags + e.tags + f.tags + g.tags
  {
    assert Flatten([a]) == a.tags by { assert [a][..0] == []; }
    assert Flatten([a, b]) == a.tags + b.tags by { assert [a, b][..1] == [a]; }
    assert Flatten([a, b, c]) == Flatten([a, b]) + c.tags by { assert [a, b, c][..2] == [a, b]; }
    assert Flatten([a, b, c, d]) == Flatten([a, b, c]) + d.tags by { assert [a, b, c, d][..3] == [a, b, c]; }
    assert Flatten([a, b, c, d, e]) == Flatten([a, b, c, d]) + e.tags by { assert [a, b, c, d, e][..4] == [a, b, c, d]; }
    assert Flatten([a, b, c, d, e, f]) == Flatten([a, b, c, d, e]) + f.tags by {
      assert [a, b, c, d, e, f][..5] == [a, b, c, d, e];
    }
    assert [a, b, c, d, e, f, g][..6] == [a, b, c, d, e, f];
  }

  method BuildOwnTags(event: TimeEvent, days: DayRange) returns (tags: seq<Tag>)
    requires days.first <= days.last
    ensures tags == Flatten(OwnParts(event, days))
  {
    tags := [["d", event.dTag]] + [["title", event.title]];
    tags := tags + StartTags(event.start);
    tags := PushOptional(tags, "end", Printed(event.end));
    ghost var before := tags;
    var day := days.first;
    while day <= days.last
      invariant days.first <= day <= days.last + 1
      invariant tags == before + DayTags(days.first, days.last)[..day - days.first]
      decreases days.last + 1 - day
    {
      tags := tags + [DayTag(day)];
      day := day + 1;
    }
    assert tags == before + DayTags(days.first, days.last);
    tags := PushOptional(tags, "start_tzid", event.startTzid);
    tags := PushOptional(tags, "end_tzid", event.endTzid);
    ghost var parts := OwnParts(event, days);
    FlattenSeven(parts[0], parts[1], parts[2], parts[3], parts[4], parts[5], parts[6]);
  }

  method PushOptional(tags: seq<Tag>, key: string, value: Option<string>) returns (r: seq<Tag>)
    ensures r == tags + OptionalTag(key, value)
  {
    if value.None? {
      return tags;
    }
    return tags + [[key, value.value]];
  }

  // ----- reading the tags

  function ParseStandard(value: string, key: string): Result<U64, ParseError> {
    if value == "" || !AllDigits(value) then Err(InvalidTag(key))
    else if DigitsValue(value) > U64_MAX then Err(InvalidNumber(key))
    else Ok(DigitsValue(value))
  }

  datatype ObservedDay = ObservedDay(wire: string, index: U64)

  /** `ObservedUtcDay::parse`: leading zeros are observed and kept. */
  function ParseDay(value: string): Result<ObservedDay, TimeError> {
    var index := ParseU64(value);
    if index.None? then Err(InvalidText) else Ok(ObservedDay(value, index.value))
  }

  predicate CanonicalDay(day: ObservedDay) {
    day.wire == NatText(day.index)
  }

  function ParseDays(values: seq<string>): Result<seq<ObservedDay>, ParseError> {
    if values == [] then Ok([])
    else if ParseDay(values[0]).Err? then Err(InvalidTag("D"))
    else
      var rest :- ParseDays(values[1..]);
      Ok([ParseDay(values[0]).value] + rest)
  }

  datatype ParsedTime = ParsedTime(
    startWire: string,
    start: U64,
    endWire: Option<string>,
    end: Option<U64>,
    observed: seq<ObservedDay>)

  predicate OutsideSpan(p: ParsedTime)
    requires !Inverted(p.start, p.end)
  {
    var days := Span(p.start, p.end);
    exists i :: 0 <= i < |p.observed| && !(days.first <= p.observed[i].index <= days.last)
  }

  /** `ParsedNip52CalendarTimeEvent::try_new`. */
  function TryNew(p: ParsedTime): Result<ParsedTime, TimeError> {
    if ParseU64(p.startWire) != Some(p.start)
       || (p.endWire.Some? && p.end.Some? && ParseU64(p.endWire.value) != p.end)
       || p.endWire.Some? != p.end.Some? then Err(InvalidRange)
    else if Inverted(p.start, p.end) then Err(InvalidRange)
    else if p.observed == [] || OutsideSpan(p) then Err(InvalidRange)
    else Ok(p)
  }

  function ParseEnd(endWire: Option<string>): Result<Option<U64>, ParseError> {
    if endWire.None? then Ok(None)
    else
      var end :- ParseStandard(endWire.value, "end");
      Ok(Some(end))
  }

  /** The time fields of `parse_nip52_calendar_time_event`. */
  function ParseTime(tags: seq<Tag>): Result<ParsedTime, ParseError> {
    var startWire :- RequiredValue(tags, "start");
    var start :- ParseStandard(startWire, "start");
    var endWire :- OptionalValue(tags, "end");
    var end :- ParseEnd(endWire);
    var values :- Values(Matching(tags, "D"), "D");
    var observed :- ParseDays(values);
    if Inverted(start, end) then Err(InvalidTag("end"))
    else if observed == [] then Err(MissingTag("D"))
    else
      var p := ParsedTime(startWire, start, endWire, end, observed);
      if OutsideSpan(p) then Err(InvalidTag("D"))
      else if TryNew(p).Err? then Err(InvalidTag("end"))
      else Ok(p)
  }

  predicate ExactCoverage(observed: seq<ObservedDay>, days: DayRange) {
    && |observed| == days.last - days.first + 1
    && forall i :: 0 <= i < |observed| ==> CanonicalDay(observed[i]) && observed[i].index == days.first + i
  }

  /** The timestamp and coverage checks of `AdmittedCalendarTimeEvent::try_from_parsed`. */
  function Admit(p: ParsedTime): Result<DayRange, AdmissionError> {
    if p.startWire != NatText(p.start) || (p.endWire.Some? && p.end.Some? && p.endWire.value != NatText(p.end.value)) then
      Err(NonCanonicalField("timestamp"))
    else
      match CoveredUtcDays(p.start, p.end)
      case Err(CoveredDayLimitExceeded(actual)) => Err(LimitExceeded(actual))
      case Err(_) => Err(IncompleteDayCoverage)
      case Ok(days) => if ExactCoverage(p.observed, days) then Ok(days) else Err(IncompleteDayCoverage)
  }

  // ----- exactly what the parser reads

  lemma StandardExact(value: string, key: string, n: nat)
    ensures ParseStandard(value, key) == Ok(n) <==> n <= 18_446_744_073_709_551_615 && ZeroPadded(value, n)
    ensures ParseStandard(value, key).Err? ==>
              ParseStandard(value, key) == if value != "" && AllDigits(value) then Err(InvalidNumber(key)) else Err(InvalidTag(key))
  {
    ZeroPaddedExact(value, n);
  }

  function Wires(observed: seq<ObservedDay>): (wires: seq<string>)
    ensures |wires| == |observed| && forall i :: 0 <= i < |wires| ==> wires[i] == observed[i].wire
  {
    if observed == [] then [] else [observed[0].wire] + Wires(observed[1..])
  }

  ghost predicate DaysSpelled(observed: seq<ObservedDay>) {
    forall i :: 0 <= i < |observed| ==> ZeroPadded(observed[i].wire, observed[i].index)
  }

  lemma {:induction false} DaysExact(values: seq<string>, observed: seq<ObservedDay>)
    ensures ParseDays(values) == Ok(observed) <==> values == Wires(observed) && DaysSpelled(observed)
    decreases |values|
  {
    if values != [] && observed != [] {
      DaysExact(values[1..], observed[1..]);
      ParseU64Exact(values[0], observed[0].index);
      assert values == [values[0]] + values[1..] && observed == [observed[0]] + observed[1..];
    }
  }

  /** The times as the tags spell them: numbers behind any zeros, and day tags of touched days only. */
  ghost predicate TimesSpelled(tags: seq<Tag>, p: ParsedTime) {
    && Matching(tags, "start") == [["start", p.startWire]] && ZeroPadded(p.startWire, p.start)
    && Matching(tags, "end") == OptionalTag("end", p.endWire) && (p.endWire.Some? <==> p.end.Some?)
    && (p.end.Some? ==> ZeroPadded(p.endWire.value, p.end.value) && p.start < p.end.value)
    && Matching(tags, "D") == KeyedTags("D", Wires(p.observed)) && DaysSpelled(p.observed)
    && p.observed != [] && forall i :: 0 <= i < |p.observed| ==> p.observed[i].index in DaysTouched(p.start, p.end)
  }

  lemma StartExact(tags: seq<Tag>, p: ParsedTime)
    ensures RequiredValue(tags, "start") == Ok(p.startWire) && ParseStandard(p.startWire, "start") == Ok(p.start) <==>
              Matching(tags, "start") == [["start", p.startWire]] && ZeroPadded(p.startWire, p.start)
  {
    OptionalValueExact(tags, "start", Some(p.startWire));
    StandardExact(p.startWire, "start", p.start);
  }

  lemma EndExact(tags: seq<Tag>, p: ParsedTime)
    ensures OptionalValue(tags, "end") == Ok(p.endWire) && ParseEnd(p.endWire) == Ok(p.end) <==>
              && Matching(tags, "end") == OptionalTag("end", p.endWire) && (p.endWire.Some? <==> p.end.Some?)
              && (p.end.Some? ==> ZeroPadded(p.endWire.value, p.end.value))
  {
    OptionalValueExact(tags, "end", p.endWire);
    if p.endWire.Some? && p.end.Some? {
      StandardExact(p.endWire.value, "end", p.end.value);
    }
  }

  lemma ObservedExact(tags: seq<Tag>, observed: seq<ObservedDay>)
    ensures Values(Matching(tags, "D"), "D").Ok? && ParseDays(Values(Matching(tags, "D"), "D").value) == Ok(observed) <==>
              Matching(tags, "D") == KeyedTags("D", Wires(observed)) && DaysSpelled(observed)
  {
    MatchingKeys(tags, "D");
    ValuesExact(Matching(tags, "D"), "D", Wires(observed));
    DaysExact(Wires(observed), observed);
    if Values(Matching(tags, "D"), "D").Ok? {
      DaysExact(Values(Matching(tags, "D"), "D").value, observed);
    }
  }

  lemma InsideTouched(p: ParsedTime)
    requires !Inverted(p.start, p.end)
    ensures !OutsideSpan(p) <==> forall i :: 0 <= i < |p.observed| ==> p.observed[i].index in DaysTouched(p.start, p.end)
  {
    CoveredDaysExact(p.start, p.end);
  }

  /** The parser reads times exactly as their tags spell them; its closing construction never refuses. */
  lemma TimesParsedExactly(tags: seq<Tag>, p: ParsedTime)
    ensures ParseTime(tags) == Ok(p) <==> TimesSpelled(tags, p)
  {
    TimeSteps(tags, p);
    StartExact(tags, p);
    EndExact(tags, p);
    ObservedExact(tags, p.observed);
    if !Inverted(p.start, p.end) {
      InsideTouched(p);
    }
  }

  lemma TimeSteps(tags: seq<Tag>, p: ParsedTime)
    ensures ParseTime(tags) == Ok(p) <==>
              && RequiredValue(tags, "start") == Ok(p.startWire) && ParseStandard(p.startWire, "start") == Ok(p.start)
              && OptionalValue(tags, "end") == Ok(p.endWire) && ParseEnd(p.endWire) == Ok(p.end)
              && Values(Matching(tags, "D"), "D").Ok? && ParseDays(Values(Matching(tags, "D"), "D").value) == Ok(p.observed)
              && !Inverted(p.start, p.end) && p.observed != [] && !OutsideSpan(p)
  {
  }

  predicate CanonicalTimes(p: ParsedTime) {
    p.startWire == NatText(p.start) && (p.endWire.Some? && p.end.Some? ==> p.endWire.value == NatText(p.end.value))
  }

  /** Which error times report: text that is not canonical, an end before the start, too many touched days, or day
      tags that are not each of them once. */
  lemma TimesRefused(p: ParsedTime)
    ensures !CanonicalTimes(p) ==> Admit(p) == Err(NonCanonicalField("timestamp"))
    ensures CanonicalTimes(p) && Inverted(p.start, p.end) ==> Admit(p) == Err(IncompleteDayCoverage)
    ensures CanonicalTimes(p) && !Inverted(p.start, p.end) ==>
            var touched := DaysTouched(p.start, p.end);
            Admit(p) == if |touched| > 366 then Err(LimitExceeded(|touched|))
                        else if ExactCoverage(p.observed, Span(p.start, p.end)) then Ok(Span(p.start, p.end))
                        else Err(IncompleteDayCoverage)
  {
    CoveredDaysExact(p.start, p.end);
  }

  // ----- authored tags are exactly the admitted ones

  /** The start, end and day tags among `tags` are the authored ones for these times. */
  predicate CarriesTimes(tags: seq<Tag>, start: U64, end: Option<U64>, days: DayRange) {
    && days.first <= days.last
    && Matching(tags, "start") == StartTags(start)
    && Matching(tags, "end") == OptionalTag("end", Printed(end))
    && Matching(tags, "D") == DayTags(days.first, days.last)
  }

  lemma PrintedParses(n: U64, key: string)
    ensures ParseU64(NatText(n)) == Some(n) && ParseStandard(NatText(n), key) == Ok(n)
  {
    NatTextIsCanonical(n);
  }

  /** The observed days that exact authored coverage reads back as. */
  function Observed(first: nat, last: U64): (days: seq<ObservedDay>)
    requires first <= last
    ensures ExactCoverage(days, DayRange(first, last))
    decreases last - first
  {
    var head := ObservedDay(NatText(first), first);
    [head] + if first == last then [] else Observed(first + 1, last)
  }

  lemma {:induction false} DayTagsParse(first: nat, last: U64)
    requires first <= last
    ensures var values := Values(DayTags(first, last), "D");
            values.Ok? && ParseDays(values.value) == Ok(Observed(first, last))
    decreases last - first
  {
    PrintedParses(first, "D");
    var rest := if first < last then DayTags(first + 1, last) else [];
    if first < last {
      DayTagsParse(first + 1, last);
    }
    PrependValue(NatText(first), rest);
    PrependDay(NatText(first), Values(rest, "D").value);
  }

  lemma PrependValue(value: string, rest: seq<Tag>)
    requires value != "" && Values(rest, "D").Ok?
    ensures Values([["D", value]] + rest, "D") == Ok([value] + Values(rest, "D").value)
  {
    assert ([["D", value]] + rest)[1..] == rest;
  }

  lemma PrependDay(value: string, rest: seq<string>)
    requires ParseDay(value).Ok? && ParseDays(rest).Ok?
    ensures ParseDays([value] + rest) == Ok([ParseDay(value).value] + ParseDays(rest).value)
  {
    assert ([value] + rest)[1..] == rest;
  }

  function Carried(start: U64, end: Option<U64>, days: DayRange): ParsedTime
    requires days.first <= days.last <= U64_MAX
  {
    ParsedTime(NatText(start), start, Printed(end), end, Observed(days.first, days.last))
  }

  lemma CarriedIsWellFormed(start: U64, end: Option<U64>, days: DayRange)
    requires CoveredUtcDays(start, end) == Ok(days)
    ensures days.first <= days.last <= U64_MAX
    ensures !OutsideSpan(Carried(start, end, days))
    ensures TryNew(Carried(start, end, days)).Ok?
    ensures Admit(Carried(start, end, days)) == Ok(days)
  {
    PrintedParses(start, "start");
    if end.Some? {
      PrintedParses(end.value, "end");
    }
  }

  lemma CarriedValues(tags: seq<Tag>, start: U64, end: Option<U64>, days: DayRange)
    requires CarriesTimes(tags, start, end, days)
    ensures RequiredValue(tags, "start") == Ok(NatText(start))
    ensures OptionalValue(tags, "end") == Ok(Printed(end)) && ParseEnd(Printed(end)) == Ok(end)
  {
    if end.Some? {
      PrintedParses(end.value, "end");
    }
  }

  /** Tags that carry a coverable event's times parse and are admitted with those times and days. */
  lemma CarriedTimesAdmitted(tags: seq<Tag>, start: U64, end: Option<U64>, days: DayRange)
    requires CoveredUtcDays(start, end) == Ok(days) && CarriesTimes(tags, start, end, days)
    ensures days.last <= U64_MAX
    ensures var p := Carried(start, end, days); ParseTime(tags) == Ok(p) && Admit(p) == Ok(days)
  {
    CarriedIsWellFormed(start, end, days);
    CarriedValues(tags, start, end, days);
    PrintedParses(start, "start");
    DayTagsParse(days.first, days.last);
  }

  lemma {:induction false} ValuesAt(matching: seq<Tag>, key: string)
    requires Values(matching, key).Ok?
    ensures |Values(matching, key).value| == |matching|
    ensures forall i :: 0 <= i < |matching| ==> |matching[i]| == 2 && matching[i][1] == Values(matching, key).value[i]
  {
    if matching != [] {
      ValuesAt(matching[1..], key);
    }
  }

  lemma {:induction false} ParseDaysAt(values: seq<string>)
    requires ParseDays(values).Ok?
    ensures |ParseDays(values).value| == |values|
    ensures forall i :: 0 <= i < |values| ==> ParseDays(values).value[i].wire == values[i]
  {
    if values != [] {
      ParseDaysAt(values[1..]);
    }
  }

  lemma DayCount(matching: seq<Tag>, values: seq<string>, observed: seq<ObservedDay>)
    requires Values(matching, "D") == Ok(values) && ParseDays(values) == Ok(observed)
    ensures |observed| == |matching|
  {
    ValuesAt(matching, "D");
    ParseDaysAt(values);
  }

  lemma DayTagAt(matching: seq<Tag>, values: seq<string>, observed: seq<ObservedDay>, i: nat)
    requires Values(matching, "D") == Ok(values) && ParseDays(values) == Ok(observed)
    requires i < |matching| == |observed| && HasKey(matching[i], "D") && CanonicalDay(observed[i])
    ensures matching[i] == DayTag(observed[i].index)
  {
    ValuesAt(matching, "D");
    ParseDaysAt(values);
  }

  lemma DayTagsRecovered(matching: seq<Tag>, values: seq<string>, observed: seq<ObservedDay>, days: DayRange)
    requires days.first <= days.last && ExactCoverage(observed, days)
    requires forall i :: 0 <= i < |matching| ==> HasKey(matching[i], "D")
    requires Values(matching, "D") == Ok(values) && ParseDays(values) == Ok(observed)
    ensures |matching| == days.last - days.first + 1
    ensures forall i :: 0 <= i < |matching| ==> matching[i] == DayTag(days.first + i)
  {
    DayCount(matching, values, observed);
    forall i | 0 <= i < |matching|
      ensures matching[i] == DayTag(days.first + i)
    {
      DayTagAt(matching, values, observed, i);
    }
  }

  lemma TimeInPieces(tags: seq<Tag>, p: ParsedTime) returns (values: seq<string>)
    requires ParseTime(tags) == Ok(p)
    ensures RequiredValue(tags, "start") == Ok(p.startWire) && OptionalValue(tags, "end") == Ok(p.endWire)
    ensures Values(Matching(tags, "D"), "D") == Ok(values) && ParseDays(values) == Ok(p.observed)
    ensures !Inverted(p.start, p.end) && (p.endWire.Some? <==> p.end.Some?)
  {
    values := Values(Matching(tags, "D"), "D").value;
  }

  lemma AdmittedTimes(p: ParsedTime, days: DayRange)
    requires Admit(p) == Ok(days) && !Inverted(p.start, p.end) && (p.endWire.Some? <==> p.end.Some?)
    ensures CoveredUtcDays(p.start, p.end) == Ok(days) && days.first <= days.last
    ensures p.startWire == NatText(p.start) && p.endWire == Printed(p.end) && ExactCoverage(p.observed, days)
  {
    SpanOrdered(p.start, p.end);
  }

  /** Whatever is admitted carries exactly the authored tags for its own times. */
  lemma AdmittedCarriesTimes(tags: seq<Tag>, p: ParsedTime, days: DayRange)
    requires ParseTime(tags) == Ok(p) && Admit(p) == Ok(days)
    ensures CoveredUtcDays(p.start, p.end) == Ok(days) && CarriesTimes(tags, p.start, p.end, days)
  {
    var values := TimeInPieces(tags, p);
    AdmittedTimes(p, days);
    OptionalValueExact(tags, "start", Some(p.startWire));
    OptionalValueExact(tags, "end", p.endWire);
    MatchingKeys(tags, "D");
    DayTagsRecovered(Matching(tags, "D"), values, p.observed, days);
  }

  // ----- the keys of an event

  lemma OwnPartsPlaced(event: TimeEvent, days: DayRange, i: nat)
    requires days.first <= days.last && i < 7
    ensures var part := OwnParts(event, days)[i]; Slot(part.key) == i && KeyText(part.key)
  {
  }

  lemma OwnPartsKeyed(event: TimeEvent, days: DayRange)
    requires days.first <= days.last
    ensures PartsKeyed(OwnParts(event, days))
  {
  }

  lemma TimePartsKeyed(event: TimeEvent, days: DayRange)
    requires days.first <= days.last
    ensures var parts := TimeParts(event, days);
            && PartsKeyed(parts) && KeysDistinct(parts)
            && forall i :: 0 <= i < |parts| ==> KeyText(parts[i].key) && Slot(parts[i].key) < 15
  {
    var parts := TimeParts(event, days);
    OwnPartsKeyed(event, days);
    CommonPartsKeyed(event.common);
    forall i | 0 <= i < |parts|
      ensures Slot(parts[i].key) == i && KeyText(parts[i].key) && AllKeyed(parts[i].tags, parts[i].key)
    {
      if i < 7 {
        OwnPartsPlaced(event, days, i);
      } else {
        CommonPartsPlaced(event.common, i - 7);
      }
    }
  }

  /** An authored event's tags are, key by key, those of its fields, and no other key is used. */
  lemma AuthoredCarries(event: TimeEvent, days: DayRange, key: string)
    requires CoveredUtcDays(event.start, event.end) == Ok(days)
    ensures TimeTags(event).Ok? && Carries(TimeTags(event).value, TimeParts(event, days))
    ensures Slot(key) == 15 ==> Matching(TimeTags(event).value, key) == []
  {
    var parts := TimeParts(event, days);
    TimePartsKeyed(event, days);
    FlattenCarries(parts);
    if Slot(key) == 15 {
      AbsentFromParts(parts, key);
    }
  }

  /** The order in which an authored event's tags are written. */
  lemma TimeTagOrder(event: TimeEvent, days: DayRange)
    requires CoveredUtcDays(event.start, event.end) == Ok(days)
    ensures TimeTags(event) == Ok(Flatten(TimeParts(event, days)))
    ensures InOrder(TimeParts(event, days), ["d", "title", "start", "end", "D", "start_tzid", "end_tzid"]
                                            + ["location", "g", "summary", "image", "p", "t", "r", "a"])
  {
    assert InOrder(OwnParts(event, days), ["d", "title", "start", "end", "D", "start_tzid", "end_tzid"]);
    assert InOrder(CommonParts(event.common), ["location", "g", "summary", "image", "p", "t", "r", "a"]);
    InOrderConcat(OwnParts(event, days), ["d", "title", "start", "end", "D", "start_tzid", "end_tzid"],
                  CommonParts(event.common), ["location", "g", "summary", "image", "p", "t", "r", "a"]);
  }

  // ----- whole events

  const KIND_CALENDAR_TIME_EVENT: nat := 31_923

  datatype ParsedEvent = ParsedEvent(
    metadata: Metadata,
    time: ParsedTime,
    startTzid: Option<string>,
    endTzid: Option<string>)

  /** `parse_nip52_calendar_time_event`; `zoneOk` stands for the time zone database. */
  function ParseEvent(g: Grammar, zoneOk: string -> bool, kind: nat, tags: seq<Tag>, content: string)
    : Result<ParsedEvent, ParseError>
  {
    if !Bounded(tags, content) then Err(InvalidEnvelope)
    else if kind != KIND_CALENDAR_TIME_EVENT then Err(InvalidKind(kind))
    else
      var metadata :- ParseMetadata(g, tags, content);
      var time :- ParseTime(tags);
      var startTzid :- OptionalWhere(tags, "start_tzid", zoneOk);
      var endTzid :- OptionalWhere(tags, "end_tzid", zoneOk);
      Ok(ParsedEvent(metadata, time, startTzid, endTzid))
  }

  /** `AdmittedCalendarTimeEvent::try_from_parsed`. */
  function AdmitEvent(g: Grammar, p: ParsedEvent): Result<DayRange, AdmissionError> {
    var _ :- AdmitMetadata(g, p.metadata);
    var days :- Admit(p.time);
    if BlossomImage(g, p.metadata) then Ok(days) else Err(NonBlossomImage)
  }

  /** An event is refused for its metadata, then its times, then an image that is not a Blossom one. */
  lemma EventRefused(g: Grammar, p: ParsedEvent)
    ensures AdmitEvent(g, p).Err? ==>
              AdmitEvent(g, p) == if AdmitMetadata(g, p.metadata).Err? then Err(AdmitMetadata(g, p.metadata).error)
                                  else if Admit(p.time).Err? then Err(Admit(p.time).error)
                                  else Err(NonBlossomImage)
    ensures AdmitMetadata(g, p.metadata).Ok? && Admit(p.time).Ok? ==>
              (AdmitEvent(g, p).Err? <==> p.metadata.image.Some? && !g.blob(p.metadata.image.value))
  {
  }

  predicate ZoneFits(zoneOk: string -> bool, zone: Option<string>) {
    zone.Some? ==> zone.value != "" && zoneOk(zone.value)
  }

  /** Everything the authoring API checks: each field, the covered days and the budget of the whole. */
  predicate Admissible(g: Grammar, zoneOk: string -> bool, event: TimeEvent) {
    && FieldsAdmissible(g, zoneOk, event)
    && CoveredUtcDays(event.start, event.end).Ok?
    && Budget(event.description, TimeTags(event).value).Ok?
  }

  predicate FieldsAdmissible(g: Grammar, zoneOk: string -> bool, event: TimeEvent) {
    && Identified(event.dTag, event.title) && CommonAdmissible(g, event.common)
    && ZoneFits(zoneOk, event.startTzid) && ZoneFits(zoneOk, event.endTzid)
  }

  /** The tags of each field, one key at a time. */
  predicate CarriesFields(tags: seq<Tag>, event: TimeEvent, days: DayRange, name: Option<string>) {
    && CarriesTimes(tags, event.start, event.end, days)
    && Matching(tags, "start_tzid") == OptionalTag("start_tzid", event.startTzid)
    && Matching(tags, "end_tzid") == OptionalTag("end_tzid", event.endTzid)
    && Writes(tags, MetadataOf(event.dTag, event.title, Content(event.description), event.common, name))
  }

  lemma CarriesFieldByField(tags: seq<Tag>, event: TimeEvent, days: DayRange, name: Option<string>)
    requires days.first <= days.last
    ensures Carries(tags, TimeParts(event, days)) && Matching(tags, "name") == OptionalTag("name", name)
       <==> CarriesFields(tags, event, days, name)
  {
    var parts := TimeParts(event, days);
    var own, common := OwnParts(event, days), CommonParts(event.common);
    assert Carries(tags, parts) <==> Carries(tags, own) && Carries(tags, common) by {
      assert forall i :: 0 <= i < |own| ==> parts[i] == own[i];
      assert forall i :: 0 <= i < |common| ==> parts[i + |own|] == common[i];
      assert forall i :: |own| <= i < |parts| ==> parts[i] == common[i - |own|];
    }
    OwnCarried(tags, event, days);
    CommonCarried(tags, event.common);
  }

  lemma OwnCarried(tags: seq<Tag>, event: TimeEvent, days: DayRange)
    requires days.first <= days.last
    ensures Carries(tags, OwnParts(event, days)) <==>
              && Matching(tags, "d") == [["d", event.dTag]] && Matching(tags, "title") == [["title", event.title]]
              && CarriesTimes(tags, event.start, event.end, days)
              && Matching(tags, "start_tzid") == OptionalTag("start_tzid", event.startTzid)
              && Matching(tags, "end_tzid") == OptionalTag("end_tzid", event.endTzid)
  {
    var own := OwnParts(event, days);
    CarriesSeven(tags, own);
  }

  lemma CarriesSeven(tags: seq<Tag>, parts: seq<Part>)
    requires |parts| == 7
    ensures Carries(tags, parts) <==>
              && CarriesAt(tags, parts[0]) && CarriesAt(tags, parts[1]) && CarriesAt(tags, parts[2])
              && CarriesAt(tags, parts[3]) && CarriesAt(tags, parts[4]) && CarriesAt(tags, parts[5])
              && CarriesAt(tags, parts[6])
  {
  }

  predicate CarriesAt(tags: seq<Tag>, part: Part) {
    Matching(tags, part.key) == part.tags
  }

  lemma CommonCarried(tags: seq<Tag>, c: Common)
    ensures Carries(tags, CommonParts(c)) <==>
              && Matching(tags, "location") == KeyedTags("location", c.locations)
              && Matching(tags, "g") == OptionalTag("g", c.geohash)
              && Matching(tags, "summary") == OptionalTag("summary", c.summary)
              && Matching(tags, "image") == OptionalTag("image", c.image)
              && Matching(tags, "p") == (if c.participants.Some? then ParticipantTags(c.participants.value) else [])
              && Matching(tags, "t") == KeyedTags("t", c.categories)
              && Matching(tags, "r") == KeyedTags("r", c.references)
              && Matching(tags, "a") == RequestTags(c.requests)
  {
    var parts := CommonParts(c);
    CarriesSeven(tags, parts[..7]);
    assert Carries(tags, parts) <==> Carries(tags, parts[..7]) && CarriesAt(tags, parts[7]) by {
      assert forall i :: 0 <= i < 7 ==> parts[..7][i] == parts[i];
    }
  }

  /** What an event reads back as when some list carries its fields. */
  function Parsed(event: TimeEvent, days: DayRange, name: Option<string>): ParsedEvent
    requires days.first <= days.last <= U64_MAX
  {
    ParsedEvent(MetadataOf(event.dTag, event.title, Content(event.description), event.common, name),
                Carried(event.start, event.end, days), event.startTzid, event.endTzid)
  }

  /** A bounded list that carries an admissible event is read back as that event and admitted. */
  lemma CarriedEventAdmitted(g: Grammar, zoneOk: string -> bool, tags: seq<Tag>, event: TimeEvent, days: DayRange,
                             name: Option<string>)
    requires CoveredUtcDays(event.start, event.end) == Ok(days) && Admissible(g, zoneOk, event) && NameFits(name)
    requires CarriesFields(tags, event, days, name) && Bounded(tags, Content(event.description))
    ensures days.last <= U64_MAX
    ensures var p := Parsed(event, days, name);
            && ParseEvent(g, zoneOk, KIND_CALENDAR_TIME_EVENT, tags, Content(event.description)) == Ok(p)
            && AdmitEvent(g, p) == Ok(days)
  {
    var content := Content(event.description);
    CommonOfMetadata(g, event.dTag, event.title, content, event.common, name);
    MetadataExact(g, tags, content, MetadataOf(event.dTag, event.title, content, event.common, name));
    CarriedTimesAdmitted(tags, event.start, event.end, days);
    OptionalExact(tags, "start_tzid", zoneOk, event.startTzid);
    OptionalExact(tags, "end_tzid", zoneOk, event.endTzid);
  }

  lemma AuthoredIsBounded(event: TimeEvent, days: DayRange)
    requires CoveredUtcDays(event.start, event.end) == Ok(days)
    requires Budget(event.description, TimeTags(event).value).Ok?
    ensures Bounded(TimeTags(event).value, Content(event.description))
  {
    TimePartsKeyed(event, days);
    BudgetIsBounded(event.description, TimeParts(event, days));
  }

  lemma AuthoredCarriesFields(event: TimeEvent, days: DayRange)
    requires CoveredUtcDays(event.start, event.end) == Ok(days)
    ensures CarriesFields(TimeTags(event).value, event, days, None)
  {
    AuthoredCarries(event, days, "name");
    CarriesFieldByField(TimeTags(event).value, event, days, None);
  }

  /** An authored event comes back whole: every field, its times and each touched day once, and it is admitted. */
  lemma AuthoredRoundTrip(g: Grammar, zoneOk: string -> bool, event: TimeEvent, days: DayRange)
    requires CoveredUtcDays(event.start, event.end) == Ok(days) && Admissible(g, zoneOk, event)
    ensures days.last <= U64_MAX
    ensures var p := Parsed(event, days, None);
            && ParseEvent(g, zoneOk, KIND_CALENDAR_TIME_EVENT, TimeTags(event).value, Content(event.description)) == Ok(p)
            && AdmitEvent(g, p) == Ok(days)
  {
    AuthoredIsBounded(event, days);
    AuthoredCarriesFields(event, days);
    CarriedEventAdmitted(g, zoneOk, TimeTags(event).value, event, days, None);
  }

  function EventOf(p: ParsedEvent): TimeEvent {
    TimeEvent(p.metadata.dTag, p.metadata.title, p.time.start, p.time.end, p.startTzid, p.endTzid,
              p.metadata.description, CommonOf(p.metadata))
  }

  lemma ParsedInPieces(g: Grammar, zoneOk: string -> bool, kind: nat, tags: seq<Tag>, content: string,
                       p: ParsedEvent, days: DayRange)
    requires ParseEvent(g, zoneOk, kind, tags, content) == Ok(p) && AdmitEvent(g, p) == Ok(days)
    ensures Bounded(tags, content) && ParseMetadata(g, tags, content) == Ok(p.metadata) && ParseTime(tags) == Ok(p.time)
    ensures OptionalWhere(tags, "start_tzid", zoneOk) == Ok(p.startTzid)
    ensures OptionalWhere(tags, "end_tzid", zoneOk) == Ok(p.endTzid)
    ensures AdmitMetadata(g, p.metadata).Ok? && BlossomImage(g, p.metadata) && Admit(p.time) == Ok(days)
  {
  }

  lemma MetadataCarried(g: Grammar, tags: seq<Tag>, content: string, m: Metadata)
    requires Bounded(tags, content) && ParseMetadata(g, tags, content) == Ok(m)
    requires AdmitMetadata(g, m).Ok? && BlossomImage(g, m)
    ensures Content(m.description) == content && NameFits(m.legacyName)
    ensures Writes(tags, MetadataOf(m.dTag, m.title, content, CommonOf(m), m.legacyName))
    ensures Identified(m.dTag, m.title) && CommonAdmissible(g, CommonOf(m))
  {
    MetadataExact(g, tags, content, m);
    assert MetadataOf(m.dTag, m.title, content, CommonOf(m), m.legacyName) == m;
  }

  lemma AdmittedCarriesFields(g: Grammar, zoneOk: string -> bool, kind: nat, tags: seq<Tag>, content: string,
                              p: ParsedEvent, days: DayRange)
    requires ParseEvent(g, zoneOk, kind, tags, content) == Ok(p) && AdmitEvent(g, p) == Ok(days)
    ensures var event := EventOf(p);
            && CoveredUtcDays(event.start, event.end) == Ok(days) && Content(event.description) == content
            && CarriesFields(tags, event, days, p.metadata.legacyName) && NameFits(p.metadata.legacyName)
            && FieldsAdmissible(g, zoneOk, event)
  {
    ParsedInPieces(g, zoneOk, kind, tags, content, p, days);
    MetadataCarried(g, tags, content, p.metadata);
    AdmittedCarriesTimes(tags, p.time, days);
    OptionalExact(tags, "start_tzid", zoneOk, p.startTzid);
    OptionalExact(tags, "end_tzid", zoneOk, p.endTzid);
  }

  lemma {:induction false} CountBySum(tags: seq<Tag>)
    ensures SumBy(tags, One) == |tags|
  {
    if tags != [] {
      CountBySum(tags[1..]);
    }
  }

  function One(tag: Tag): int { 1 }

  lemma BytesNonnegative(tag: Tag)
    ensures ElementBytes(tag) >= 0
  {
    FoldTagExact(0, tag);
  }

  /** An event carried by a bounded list is itself within the authoring budget. */
  lemma CarriedWithinBudget(tags: seq<Tag>, event: TimeEvent, days: DayRange)
    requires CoveredUtcDays(event.start, event.end) == Ok(days)
    requires Carries(tags, TimeParts(event, days)) && Bounded(tags, Content(event.description))
    ensures Budget(event.description, TimeTags(event).value).Ok?
  {
    var parts := TimeParts(event, days);
    TimePartsKeyed(event, days);
    forall tag: Tag
      ensures ElementBytes(tag) >= 0
    {
      BytesNonnegative(tag);
    }
    CarriedWithin(tags, parts, ElementBytes);
    CarriedWithin(tags, parts, One);
    CountBySum(tags);
    CountBySum(Flatten(parts));
    forall i | 0 <= i < |Flatten(parts)|
      ensures SmallElements(Flatten(parts)[i])
    {
      assert Flatten(parts)[i] in tags;
    }
    BudgetExact(event.description, Flatten(parts));
  }

  predicate Admitted(g: Grammar, zoneOk: string -> bool, kind: nat, tags: seq<Tag>, content: string) {
    var parsed := ParseEvent(g, zoneOk, kind, tags, content);
    parsed.Ok? && AdmitEvent(g, parsed.value).Ok?
  }

  /** The tags and content are those of `event`, up to order across keys, unknown keys and a legacy name. */
  ghost predicate AuthoredAs(g: Grammar, zoneOk: string -> bool, tags: seq<Tag>, content: string, event: TimeEvent) {
    && Admissible(g, zoneOk, event) && Content(event.description) == content
    && Carries(tags, TimeParts(event, CoveredUtcDays(event.start, event.end).value))
  }

  /** An event is admitted exactly when it is bounded, of the right kind, has at most one legacy name and that
      canonical, and some event the authoring API accepts has exactly its content and its tags key by key. */
  lemma AdmittedExactly(g: Grammar, zoneOk: string -> bool, kind: nat, tags: seq<Tag>, content: string)
    ensures Admitted(g, zoneOk, kind, tags, content) <==>
              && Bounded(tags, content) && kind == KIND_CALENDAR_TIME_EVENT
              && (exists name :: Matching(tags, "name") == OptionalTag("name", name) && NameFits(name))
              && exists event :: AuthoredAs(g, zoneOk, tags, content, event)
  {
    if Admitted(g, zoneOk, kind, tags, content) {
      var p := ParseEvent(g, zoneOk, kind, tags, content).value;
      var days, event := AdmitEvent(g, p).value, EventOf(p);
      AdmittedCarriesFields(g, zoneOk, kind, tags, content, p, days);
      CarriesFieldByField(tags, event, days, p.metadata.legacyName);
      CarriedWithinBudget(tags, event, days);
      assert AuthoredAs(g, zoneOk, tags, content, event);
    }
    forall event, name | AuthoredAs(g, zoneOk, tags, content, event) && Bounded(tags, content)
                         && Matching(tags, "name") == OptionalTag("name", name) && NameFits(name)
      ensures Admitted(g, zoneOk, KIND_CALENDAR_TIME_EVENT, tags, content)
    {
      var days := CoveredUtcDays(event.start, event.end).value;
      CarriesFieldByField(tags, event, days, name);
      CarriedEventAdmitted(g, zoneOk, tags, event, days, name);
    }
  }
}
