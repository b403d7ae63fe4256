/** The authoring API of timed events, a constructor followed by any number of setters:
    crates/event/src/calendar.rs. */
module EventBuilder {
  import opened CalendarMetadata
  import opened CalendarTags
  import opened Coordinates
  import opened Digits
  import opened Json
  import opened Results
  import opened Sequences
  import opened Tags
  import opened Text
  import opened TimedEvents

  datatype BuildError = Refused | Uncoverable(fault: TimeError) | OverBudget(error: BudgetError)

  datatype Setter =
    | SetEnd(end: U64)
    | SetDescription(description: string)
    | SetStartTzid(zone: string)
    | SetEndTzid(zone: string)
    | SetLocations(locations: seq<string>)
    | SetGeohash(geohash: string)
    | SetSummary(summary: string)
    | SetImage(url: string)
    | SetParticipants(participants: seq<Participant>)
    | SetCategories(categories: seq<string>)
    | SetReferences(references: seq<string>)
    | SetRequests(requests: seq<Request>)

  const NO_METADATA := Common([], None, None, None, None, [], [], [])

  function NewEvent(dTag: string, title: string, start: U64): Result<TimeEvent, BuildError> {
    if !DTag(dTag) then Err(Refused)
    else if !CanonicalText(title) then Err(Refused)
    else if CoveredUtcDays(start, None).Err? then Err(Uncoverable(CoveredUtcDays(start, None).error))
    else Ok(TimeEvent(dTag, title, start, None, None, None, None, NO_METADATA))
  }

  /** What each setter, or the type of its argument, demands of the value. */
  predicate Accepts(g: Grammar, zoneOk: string -> bool, s: Setter) {
    match s
    case SetEnd(_) => true
    case SetDescription(description) => Utf8Len(description) <= CONTENT_MAX_BYTES
    case SetStartTzid(zone) => zone != "" && zoneOk(zone)
    case SetEndTzid(zone) => zone != "" && zoneOk(zone)
    case SetLocations(locations) => AllAdmit(locations, CanonicalText)
    case SetGeohash(geohash) => CanonicalGeohash(geohash)
    case SetSummary(summary) => CanonicalText(summary)
    case SetImage(url) => Uri(g, url) && g.blob(url)
    case SetParticipants(participants) => StrictParticipants(g, participants)
    case SetCategories(categories) => AllAdmit(categories, CanonicalText)
    case SetReferences(references) => AllAdmit(references, UriIn(g))
    case SetRequests(requests) =>
      AllRequestable(g, requests) && forall i :: 0 <= i < |requests| ==> StrictRequest(g, requests[i])
  }

  function Updated(e: TimeEvent, s: Setter): TimeEvent {
    match s
    case SetEnd(end) => e.(end := Some(end))
    case SetDescription(description) => e.(description := Some(description))
    case SetStartTzid(zone) => e.(startTzid := Some(zone))
    case SetEndTzid(zone) => e.(endTzid := Some(zone))
    case SetLocations(locations) => e.(common := e.common.(locations := locations))
    case SetGeohash(geohash) => e.(common := e.common.(geohash := Some(geohash)))
    case SetSummary(summary) => e.(common := e.common.(summary := Some(summary)))
    case SetImage(url) => e.(common := e.common.(image := Some(url)))
    case SetParticipants(participants) => e.(common := e.common.(participants := Some(participants)))
    case SetCategories(categories) => e.(common := e.common.(categories := categories))
    case SetReferences(references) => e.(common := e.common.(references := references))
    case SetRequests(requests) => e.(common := e.common.(requests := requests))
  }

  function Apply(g: Grammar, zoneOk: string -> bool, e: TimeEvent, s: Setter): Result<TimeEvent, BuildError> {
    if !Accepts(g, zoneOk, s) then Err(Refused)
    else
      var next := Updated(e, s);
      var tags := TimeTags(next);
      if tags.Err? then Err(Uncoverable(tags.error))
      else
        var budget := Budget(next.description, tags.value);
        if budget.Err? then Err(OverBudget(budget.error)) else Ok(next)
  }

  function Run(g: Grammar, zoneOk: string -> bool, e: TimeEvent, setters: seq<Setter>): Result<TimeEvent, BuildError>
    decreases |setters|
  {
    if setters == [] then Ok(e)
    else
      var init :- Run(g, zoneOk, e, setters[..|setters| - 1]);
      Apply(g, zoneOk, init, setters[|setters| - 1])
  }

  // ----- what a run leaves in each field

  /** The last value that some setter of the run picks, or the initial one. */
  function Latest<T>(setters: seq<Setter>, initial: T, pick: Setter -> Option<T>): T {
    if setters == [] then initial
    else
      var last := pick(setters[|setters| - 1]);
      if last.Some? then last.value else Latest(setters[..|setters| - 1], initial, pick)
  }

  /** Every field holds what was last set for it. */
  predicate LatestSet(start: TimeEvent, setters: seq<Setter>, e: TimeEvent) {
    OwnLatestSet(start, setters, e) && LatestMetadata(start.common, setters, e.common)
  }

  predicate OwnLatestSet(start: TimeEvent, setters: seq<Setter>, e: TimeEvent) {
    && (e.dTag, e.title, e.start) == (start.dTag, start.title, start.start)
    && e.end == Latest(setters, start.end, (s: Setter) => if s.SetEnd? then Some(Some(s.end)) else None)
    && e.description
       == Latest(setters, start.description, (s: Setter) => if s.SetDescription? then Some(Some(s.description)) else None)
    && e.startTzid == Latest(setters, start.startTzid, (s: Setter) => if s.SetStartTzid? then Some(Some(s.zone)) else None)
    && e.endTzid == Latest(setters, start.endTzid, (s: Setter) => if s.SetEndTzid? then Some(Some(s.zone)) else None)
  }

  predicate LatestMetadata(start: Common, setters: seq<Setter>, c: Common) {
    LatestTexts(start, setters, c) && LatestLists(start, setters, c)
  }

  predicate LatestTexts(start: Common, setters: seq<Setter>, c: Common) {
    && c.locations == Latest(setters, start.locations, (s: Setter) => if s.SetLocations? then Some(s.locations) else None)
    && c.geohash == Latest(setters, start.geohash, (s: Setter) => if s.SetGeohash? then Some(Some(s.geohash)) else None)
    && c.summary == Latest(setters, start.summary, (s: Setter) => if s.SetSummary? then Some(Some(s.summary)) else None)
    && c.image == Latest(setters, start.image, (s: Setter) => if s.SetImage? then Some(Some(s.url)) else None)
  }

  predicate LatestLists(start: Common, setters: seq<Setter>, c: Common) {
    && c.participants
       == Latest(setters, start.participants, (s: Setter) => if s.SetParticipants? then Some(Some(s.participants)) else None)
    && c.categories == Latest(setters, start.categories, (s: Setter) => if s.SetCategories? then Some(s.categories) else None)
    && c.references == Latest(setters, start.references, (s: Setter) => if s.SetReferences? then Some(s.references) else None)
    && c.requests == Latest(setters, start.requests, (s: Setter) => if s.SetRequests? then Some(s.requests) else None)
  }

  /** After any run each field holds its last value, so setters of different fields do not disturb one another. */
  lemma {:induction false} RunSetsLatest(g: Grammar, zoneOk: string -> bool, start: TimeEvent, setters: seq<Setter>,
                                         e: TimeEvent)
    requires Run(g, zoneOk, start, setters) == Ok(e)
    ensures LatestSet(start, setters, e)
    decreases |setters|
  {
    if setters != [] {
      var init := Run(g, zoneOk, start, setters[..|setters| - 1]).value;
      RunSetsLatest(g, zoneOk, start, setters[..|setters| - 1], init);
      assert e == Updated(init, setters[|setters| - 1]);
      OwnLatest(start, setters, init);
      TextsLatest(start.common, setters, init);
      ListsLatest(start.common, setters, init);
    }
  }

  lemma OwnLatest(start: TimeEvent, setters: seq<Setter>, before: TimeEvent)
    requires setters != [] && OwnLatestSet(start, setters[..|setters| - 1], before)
    ensures OwnLatestSet(start, setters, Updated(before, setters[|setters| - 1]))
  {
  }

  lemma TextsLatest(start: Common, setters: seq<Setter>, before: TimeEvent)
    requires setters != [] && LatestTexts(start, setters[..|setters| - 1], before.common)
    ensures LatestTexts(start, setters, Updated(before, setters[|setters| - 1]).common)
  {
  }

  lemma ListsLatest(start: Common, setters: seq<Setter>, before: TimeEvent)
    requires setters != [] && LatestLists(start, setters[..|setters| - 1], before.common)
    ensures LatestLists(start, setters, Updated(before, setters[|setters| - 1]).common)
  {
  }

  // ----- everything built is admissible

  lemma {:induction false} FlattenNothing(parts: seq<Part>)
    requires forall i :: 0 <= i < |parts| ==> parts[i].tags == []
    ensures Flatten(parts) == []
  {
    if parts != [] {
      FlattenNothing(parts[..|parts| - 1]);
    }
  }

  /** A new event writes four tags. */
  lemma NewEventTags(e: TimeEvent, days: DayRange)
    requires e == TimeEvent(e.dTag, e.title, e.start, None, None, None, None, NO_METADATA)
    requires CoveredUtcDays(e.start, None) == Ok(days)
    ensures TimeTags(e) == Ok([["d", e.dTag], ["title", e.title], ["start", NatText(e.start)], DayTag(days.first)])
  {
    var own := OwnParts(e, days);
    FlattenConcat(own, CommonParts(e.common));
    FlattenNothing(CommonParts(e.common));
    FlattenSeven(own[0], own[1], own[2], own[3], own[4], own[5], own[6]);
    assert days.first == days.last && DayTags(days.first, days.last) == [DayTag(days.first)];
    assert Flatten(own) == [["d", e.dTag]] + [["title", e.title]] + StartTags(e.start) + [DayTag(days.first)];
    assert Flatten(TimeParts(e, days)) == [["d", e.dTag], ["title", e.title], ["start", NatText(e.start)], DayTag(days.first)];
  }

  /** A tag of a short key and one element that fits. */
  lemma PairFits(key: string, value: string)
    requires Ascii(key) && |key| <= 5 && Utf8Len(value) <= TAG_ELEMENT_MAX_BYTES
    ensures SmallElements([key, value]) && ElementBytes([key, value]) <= 5 + TAG_ELEMENT_MAX_BYTES
  {
    AsciiLength(key);
    assert SumBy([value], ByteCount) == Utf8Len(value) by { assert [value][1..] == []; }
    assert SumBy([key, value], ByteCount) == ByteCount(key) + SumBy([value], ByteCount) by {
      assert [key, value][1..] == [value];
    }
  }

  lemma NumberFits(n: U64)
    ensures Utf8Len(NatText(n)) <= 20
  {
    TimestampDigits(n);
    NatTextBytes(n);
  }

  lemma FourTagsFit(a: Tag, b: Tag, c: Tag, d: Tag)
    requires SmallElements(a) && SmallElements(b) && SmallElements(c) && SmallElements(d)
    requires ElementBytes(a) <= 5_000 && ElementBytes(b) <= 5_000 && ElementBytes(c) <= 5_000 && ElementBytes(d) <= 5_000
    ensures Budget(None, [a, b, c, d]).Ok?
  {
    SumByConcat([a], [b], ElementBytes);
    SumByConcat([a] + [b], [c], ElementBytes);
    SumByConcat([a] + [b] + [c], [d], ElementBytes);
    assert [a, b, c, d] == [a] + [b] + [c] + [d];
    assert forall tag: Tag :: SumBy([tag], ElementBytes) == ElementBytes(tag) + SumBy([tag][1..], ElementBytes);
    assert [a][1..] == [] && [b][1..] == [] && [c][1..] == [] && [d][1..] == [];
    BudgetExact(None, [a, b, c, d]);
  }

  lemma NewTagsFit(dTag: string, title: string, start: U64, day: U64)
    requires DTag(dTag) && CanonicalText(title)
    ensures Budget(None, [["d", dTag], ["title", title], ["start", NatText(start)], DayTag(day)]).Ok?
  {
    NumberFits(start);
    NumberFits(day);
    PairFits("d", dTag);
    PairFits("title", title);
    PairFits("start", NatText(start));
    PairFits("D", NatText(day));
    FourTagsFit(["d", dTag], ["title", title], ["start", NatText(start)], DayTag(day));
  }

  /** The constructor makes no budget check because none can fail. */
  lemma NewEventAdmissible(g: Grammar, zoneOk: string -> bool, dTag: string, title: string, start: U64, e: TimeEvent)
    requires NewEvent(dTag, title, start) == Ok(e)
    ensures Admissible(g, zoneOk, e)
  {
    var days := CoveredUtcDays(start, None).value;
    NewEventTags(e, days);
    NewTagsFit(dTag, title, start, days.first);
  }

  /** Every run of setters on a new event keeps it admissible. */
  lemma {:induction false} RunKeepsAdmissible(g: Grammar, zoneOk: string -> bool, start: TimeEvent,
                                              setters: seq<Setter>, e: TimeEvent)
    requires Admissible(g, zoneOk, start) && Run(g, zoneOk, start, setters) == Ok(e)
    ensures Admissible(g, zoneOk, e)
    decreases |setters|
  {
    if setters != [] {
      var init := Run(g, zoneOk, start, setters[..|setters| - 1]).value;
      RunKeepsAdmissible(g, zoneOk, start, setters[..|setters| - 1], init);
      ApplyKeepsAdmissible(g, zoneOk, init, setters[|setters| - 1], e);
    }
  }

  lemma ApplyKeepsAdmissible(g: Grammar, zoneOk: string -> bool, before: TimeEvent, s: Setter, after: TimeEvent)
    requires Admissible(g, zoneOk, before) && Apply(g, zoneOk, before, s) == Ok(after)
    ensures Admissible(g, zoneOk, after)
  {
    UpdatedFields(g, zoneOk, before, s);
  }

  lemma UpdatedFields(g: Grammar, zoneOk: string -> bool, e: TimeEvent, s: Setter)
    requires FieldsAdmissible(g, zoneOk, e) && Accepts(g, zoneOk, s)
    ensures FieldsAdmissible(g, zoneOk, Updated(e, s))
  {
  }

  ghost predicate Buildable(g: Grammar, zoneOk: string -> bool, e: TimeEvent) {
    exists start, setters :: BuiltBy(g, zoneOk, e, start, setters)
  }

  predicate BuiltBy(g: Grammar, zoneOk: string -> bool, e: TimeEvent, start: TimeEvent, setters: seq<Setter>) {
    NewEvent(start.dTag, start.title, start.start) == Ok(start) && Run(g, zoneOk, start, setters) == Ok(e)
  }

  // ----- everything admissible can be built

  /** `a` has the times of `e`, and each other field of `a` is unset or that of `e`. */
  predicate Below(a: TimeEvent, e: TimeEvent) {
    && a.dTag == e.dTag && a.title == e.title && a.start == e.start && a.end == e.end
    && (a.description.Some? ==> a.description == e.description)
    && (a.startTzid.Some? ==> a.startTzid == e.startTzid)
    && (a.endTzid.Some? ==> a.endTzid == e.endTzid)
    && CommonBelow(a.common, e.common)
  }

  predicate CommonBelow(a: Common, e: Common) {
    && (a.locations != [] ==> a.locations == e.locations)
    && (a.geohash.Some? ==> a.geohash == e.geohash)
    && (a.summary.Some? ==> a.summary == e.summary)
    && (a.image.Some? ==> a.image == e.image)
    && (a.participants.Some? ==> a.participants == e.participants)
    && (a.categories != [] ==> a.categories == e.categories)
    && (a.references != [] ==> a.references == e.references)
    && (a.requests != [] ==> a.requests == e.requests)
  }

  /** Each part of `a` is empty or the same part of `b`. */
  predicate SubParts(a: seq<Part>, b: seq<Part>) {
    |a| == |b| && forall i :: 0 <= i < |a| ==> a[i].tags == [] || a[i].tags == b[i].tags
  }

  lemma {:induction false} SubPartsWeigh(a: seq<Part>, b: seq<Part>, weight: Tag -> int)
    requires SubParts(a, b) && forall tag :: weight(tag) >= 0
    ensures SumBy(Flatten(a), weight) <= SumBy(Flatten(b), weight)
    ensures forall tag :: tag in Flatten(a) ==> tag in Flatten(b)
    decreases |a|
  {
    if a != [] {
      var x, y := a[|a| - 1].tags, b[|b| - 1].tags;
      SubPartsWeigh(a[..|a| - 1], b[..|b| - 1], weight);
      SumByConcat(Flatten(a[..|a| - 1]), x, weight);
      SumByConcat(Flatten(b[..|b| - 1]), y, weight);
      SumNonnegative(y, weight);
    }
  }

  lemma BelowSubParts(a: TimeEvent, e: TimeEvent, days: DayRange)
    requires Below(a, e) && days.first <= days.last
    ensures SubParts(TimeParts(a, days), TimeParts(e, days))
  {
    OwnSubParts(a, e, days);
    CommonSubParts(a.common, e.common);
  }

  lemma OwnSubParts(a: TimeEvent, e: TimeEvent, days: DayRange)
    requires Below(a, e) && days.first <= days.last
    ensures SubParts(OwnParts(a, days), OwnParts(e, days))
  {
  }

  lemma CommonSubParts(a: Common, e: Common)
    requires CommonBelow(a, e)
    ensures SubParts(CommonParts(a), CommonParts(e))
  {
  }

  /** Leaving fields out keeps an event within its budget. */
  lemma BelowWithinBudget(a: TimeEvent, e: TimeEvent, days: DayRange)
    requires Below(a, e) && CoveredUtcDays(e.start, e.end) == Ok(days)
    requires Budget(e.description, TimeTags(e).value).Ok?
    ensures Budget(a.description, TimeTags(a).value).Ok?
  {
    var x, y := TimeParts(a, days), TimeParts(e, days);
    BelowSubParts(a, e, days);
    forall tag: Tag
      ensures ElementBytes(tag) >= 0
    {
      BytesNonnegative(tag);
    }
    SubPartsWeigh(x, y, ElementBytes);
    SubPartsWeigh(x, y, One);
    CountBySum(Flatten(x));
    CountBySum(Flatten(y));
    BudgetExact(e.description, Flatten(y));
    forall i | 0 <= i < |Flatten(x)|
      ensures SmallElements(Flatten(x)[i])
    {
      assert Flatten(x)[i] in Flatten(y);
    }
    BudgetExact(a.description, Flatten(x));
  }

  lemma ApplyFits(g: Grammar, zoneOk: string -> bool, a: TimeEvent, s: Setter, e: TimeEvent)
    requires Admissible(g, zoneOk, e) && Accepts(g, zoneOk, s) && Below(Updated(a, s), e)
    ensures Apply(g, zoneOk, a, s) == Ok(Updated(a, s))
  {
    BelowWithinBudget(Updated(a, s), e, CoveredUtcDays(e.start, e.end).value);
  }

  lemma RunOneMore(g: Grammar, zoneOk: string -> bool, e: TimeEvent, setters: seq<Setter>, s: Setter)
    requires Run(g, zoneOk, e, setters).Ok?
    ensures Run(g, zoneOk, e, setters + [s]) == Apply(g, zoneOk, Run(g, zoneOk, e, setters).value, s)
  {
    assert (setters + [s])[..|setters|] == setters;
  }

  lemma {:induction false} BuildMore(g: Grammar, zoneOk: string -> bool, a: TimeEvent, s: Setter, e: TimeEvent)
    requires Buildable(g, zoneOk, a) && Admissible(g, zoneOk, e)
    requires Accepts(g, zoneOk, s) && Below(Updated(a, s), e)
    ensures Buildable(g, zoneOk, Updated(a, s))
  {
    var start, setters :| BuiltBy(g, zoneOk, a, start, setters);
    ApplyFits(g, zoneOk, a, s, e);
    RunOneMore(g, zoneOk, start, setters, s);
    assert BuiltBy(g, zoneOk, Updated(a, s), start, setters + [s]);
  }

  /** `e` with its times and the first `i` of its other fields. */
  function Stage(e: TimeEvent, i: nat): TimeEvent {
    var c := e.common;
    TimeEvent(e.dTag, e.title, e.start, e.end, if i > 1 then e.startTzid else None, if i > 2 then e.endTzid else None,
              if i > 0 then e.description else None,
              Common(if i > 3 then c.locations else [], if i > 4 then c.geohash else None,
                     if i > 5 then c.summary else None, if i > 6 then c.image else None,
                     if i > 7 then c.participants else None, if i > 8 then c.categories else [],
                     if i > 9 then c.references else [], if i > 10 then c.requests else []))
  }

  /** The setter for field `i`, unless the field is unset. */
  function SetterFor(e: TimeEvent, i: nat): Option<Setter> {
    var c := e.common;
    match i
    case 0 => if e.description.Some? then Some(SetDescription(e.description.value)) else None
    case 1 => if e.startTzid.Some? then Some(SetStartTzid(e.startTzid.value)) else None
    case 2 => if e.endTzid.Some? then Some(SetEndTzid(e.endTzid.value)) else None
    case 3 => Some(SetLocations(c.locations))
    case 4 => if c.geohash.Some? then Some(SetGeohash(c.geohash.value)) else None
    case 5 => if c.summary.Some? then Some(SetSummary(c.summary.value)) else None
    case 6 => if c.image.Some? then Some(SetImage(c.image.value)) else None
    case 7 => if c.participants.Some? then Some(SetParticipants(c.participants.value)) else None
    case 8 => Some(SetCategories(c.categories))
    case 9 => Some(SetReferences(c.references))
    case _ => Some(SetRequests(c.requests))
  }

  lemma StageStep(e: TimeEvent, i: nat)
    requires i < 11
    ensures Below(Stage(e, i), e) && Stage(e, 11) == e
    ensures Stage(e, i + 1)
         == if SetterFor(e, i).Some? then Updated(Stage(e, i), SetterFor(e, i).value) else Stage(e, i)
  {
  }

  lemma SetterAccepted(g: Grammar, zoneOk: string -> bool, e: TimeEvent, i: nat)
    requires FieldsAdmissible(g, zoneOk, e) && i < 11 && SetterFor(e, i).Some?
    requires e.description.Some? ==> Utf8Len(e.description.value) <= CONTENT_MAX_BYTES
    ensures Accepts(g, zoneOk, SetterFor(e, i).value)
  {
  }

  lemma {:induction false} StageBuildable(g: Grammar, zoneOk: string -> bool, e: TimeEvent, i: nat)
    requires Admissible(g, zoneOk, e) && i <= 11
    ensures Buildable(g, zoneOk, Stage(e, i))
  {
    if i == 0 {
      FirstStage(g, zoneOk, e);
    } else {
      StageBuildable(g, zoneOk, e, i - 1);
      StageStep(e, i - 1);
      if i < 11 {
        StageStep(e, i);
      }
      if SetterFor(e, i - 1).Some? {
        BudgetExact(e.description, TimeTags(e).value);
        SetterAccepted(g, zoneOk, e, i - 1);
        BuildMore(g, zoneOk, Stage(e, i - 1), SetterFor(e, i - 1).value, e);
      }
    }
  }

  lemma FirstStage(g: Grammar, zoneOk: string -> bool, e: TimeEvent)
    requires Admissible(g, zoneOk, e)
    ensures Buildable(g, zoneOk, Stage(e, 0))
  {
    var plain := TimeEvent(e.dTag, e.title, e.start, None, None, None, None, NO_METADATA);
    assert NewEvent(e.dTag, e.title, e.start) == Ok(plain);
    assert BuiltBy(g, zoneOk, plain, plain, []);
    if e.end.Some? {
      assert Stage(e, 0) == Updated(plain, SetEnd(e.end.value));
      BuildMore(g, zoneOk, plain, SetEnd(e.end.value), e);
    } else {
      assert Stage(e, 0) == plain;
    }
  }

  /** The authoring API builds exactly the admissible events. */
  lemma BuildableExactly(g: Grammar, zoneOk: string -> bool, e: TimeEvent)
    ensures Buildable(g, zoneOk, e) <==> Admissible(g, zoneOk, e)
  {
    if Buildable(g, zoneOk, e) {
      var start, setters :| BuiltBy(g, zoneOk, e, start, setters);
      NewEventAdmissible(g, zoneOk, start.dTag, start.title, start.start, start);
      RunKeepsAdmissible(g, zoneOk, start, setters, e);
    }
    if Admissible(g, zoneOk, e) {
      StageBuildable(g, zoneOk, e, 11);
      StageStep(e, 10);
    }
  }
}
