/** The metadata tags that calendar events share and the budget every authored event keeps:
    crates/event/src/calendar.rs. */
module CalendarTags {
  import opened Json
  import opened Results
  import opened Sequences
  import opened Tags
  import opened Text

  const CONTENT_MAX_BYTES: nat := 128 * 1024
  const TAG_MAX_COUNT: nat := 1024
  const TAG_ELEMENT_MAX_BYTES: nat := 4 * 1024
  const TAG_TOTAL_MAX_BYTES: nat := 128 * 1024

  datatype Participant = Participant(pubkey: string, relay: Option<string>, role: Option<string>)

  datatype Request = Request(calendar: string, relay: Option<string>)

  /** The metadata of an event; module CalendarMetadata says which texts it may hold. */
  datatype Common = Common(
    locations: seq<string>,
    geohash: Option<string>,
    summary: Option<string>,
    image: Option<string>,
    participants: Option<seq<Participant>>,
    categories: seq<string>,
    references: seq<string>,
    requests: seq<Request>)

  function OptionalTag(key: string, value: Option<string>): seq<Tag> {
    if value.Some? then [[key, value.value]] else []
  }

  function OptionalElement(value: Option<string>): seq<string> {
    if value.Some? then [value.value] else []
  }

  function KeyedTags(key: string, values: seq<string>): (tags: seq<Tag>)
    ensures |tags| == |values| && forall i :: 0 <= i < |tags| ==> tags[i] == [key, values[i]]
  {
    if values == [] then [] else [[key, values[0]]] + KeyedTags(key, values[1..])
  }

  /** A role is preceded by the relay, or by an empty element in its place. */
  function ParticipantTag(p: Participant): Tag {
    ["p", p.pubkey]
    + if p.role.Some? then [if p.relay.Some? then p.relay.value else "", p.role.value] else OptionalElement(p.relay)
  }

  function ParticipantTags(participants: seq<Participant>): (tags: seq<Tag>)
    ensures AllKeyed(tags, "p")
  {
    if participants == [] then [] else [ParticipantTag(participants[0])] + ParticipantTags(participants[1..])
  }

  function RequestTags(requests: seq<Request>): (tags: seq<Tag>)
    ensures AllKeyed(tags, "a")
  {
    if requests == [] then []
    else [["a", requests[0].calendar] + OptionalElement(requests[0].relay)] + RequestTags(requests[1..])
  }

  /** The four forms of a participant's tag: a missing relay keeps its place only before a role. */
  lemma {:induction false} ParticipantForms(participants: seq<Participant>, i: nat)
    requires i < |participants|
    ensures |ParticipantTags(participants)| == |participants|
    ensures ParticipantTags(participants)[i] == match (participants[i].relay, participants[i].role)
                                                case (None, None) => ["p", participants[i].pubkey]
                                                case (Some(relay), None) => ["p", participants[i].pubkey, relay]
                                                case (None, Some(role)) => ["p", participants[i].pubkey, "", role]
                                                case (Some(relay), Some(role)) => ["p", participants[i].pubkey, relay, role]
  {
    if |participants| > 1 {
      ParticipantForms(participants[1..], if i == 0 then 0 else i - 1);
    }
  }

  /** The two forms of a request's tag. */
  lemma {:induction false} RequestForms(requests: seq<Request>, i: nat)
    requires i < |requests|
    ensures |RequestTags(requests)| == |requests|
    ensures RequestTags(requests)[i] == if requests[i].relay.Some? then ["a", requests[i].calendar, requests[i].relay.value]
                                        else ["a", requests[i].calendar]
  {
    if |requests| > 1 {
      RequestForms(requests[1..], if i == 0 then 0 else i - 1);
    }
  }

  function CommonParts(c: Common): seq<Part> {
    [ Part("location", KeyedTags("location", c.locations)), Part("g", OptionalTag("g", c.geohash)),
      Part("summary", OptionalTag("summary", c.summary)), Part("image", OptionalTag("image", c.image)),
      Part("p", if c.participants.Some? then ParticipantTags(c.participants.value) else []),
      Part("t", KeyedTags("t", c.categories)), Part("r", KeyedTags("r", c.references)),
      Part("a", RequestTags(c.requests))]
  }

  /** The metadata tags in the order they are written. */
  function CommonTags(c: Common): seq<Tag> {
    Flatten(CommonParts(c))
  }

  /** Metadata is written under its own keys only. */
  lemma CommonPartsKeyed(c: Common)
    ensures PartsKeyed(CommonParts(c))
  {
    var parts := CommonParts(c);
    forall i | 0 <= i < 8
      ensures AllKeyed(parts[i].tags, parts[i].key)
    {
      assert |parts| == 8;
    }
  }

  // ----- the budget

  datatype BudgetError =
    | ContentTooLarge(actual: nat)
    | TagCountExceeded(actual: nat)
    | TagElementTooLarge(actual: nat)
    | TagBytesExceeded(actual: nat)

  /** The running total of a tag's elements, or its first oversized element. */
  function FoldTag(total: nat, tag: Tag): Result<nat, BudgetError>
    decreases |tag|
  {
    if tag == [] then Ok(total)
    else if Utf8Len(tag[0]) > TAG_ELEMENT_MAX_BYTES then Err(TagElementTooLarge(Utf8Len(tag[0])))
    else FoldTag(SaturatingAdd(total, Utf8Len(tag[0])), tag[1..])
  }

  function FoldTags(total: nat, tags: seq<Tag>): Result<nat, BudgetError>
    decreases |tags|
  {
    if tags == [] then Ok(total)
    else
      var next :- FoldTag(total, tags[0]);
      FoldTags(next, tags[1..])
  }

  /** `validate_authored_calendar_budget`. */
  function Budget(description: Option<string>, tags: seq<Tag>): Result<(), BudgetError> {
    if description.Some? && Utf8Len(description.value) > CONTENT_MAX_BYTES then
      Err(ContentTooLarge(Utf8Len(description.value)))
    else if |tags| > TAG_MAX_COUNT then Err(TagCountExceeded(|tags|))
    else
      var total :- FoldTags(0, tags);
      if total > TAG_TOTAL_MAX_BYTES then Err(TagBytesExceeded(total)) else Ok(())
  }

  method ValidateBudget(description: Option<string>, tags: seq<Tag>) returns (r: Result<(), BudgetError>)
    ensures r == Budget(description, tags)
  {
    if description.Some? && Utf8Len(description.value) > CONTENT_MAX_BYTES {
      return Err(ContentTooLarge(Utf8Len(description.value)));
    }
    if |tags| > TAG_MAX_COUNT {
      return Err(TagCountExceeded(|tags|));
    }
    var total: nat := 0;
    assert tags[0..] == tags;
    for i := 0 to |tags|
      invariant FoldTags(0, tags) == FoldTags(total, tags[i..])
    {
      assert tags[i..][1..] == tags[i + 1..];
      total :- AddTag(total, tags[i]);
    }
    if total > TAG_TOTAL_MAX_BYTES {
      return Err(TagBytesExceeded(total));
    }
    return Ok(());
  }

  method AddTag(start: nat, tag: Tag) returns (r: Result<nat, BudgetError>)
    ensures r == FoldTag(start, tag)
  {
    var total := start;
    assert tag[0..] == tag;
    for i := 0 to |tag|
      invariant FoldTag(start, tag) == FoldTag(total, tag[i..])
    {
      assert tag[i..][1..] == tag[i + 1..];
      if Utf8Len(tag[i]) > TAG_ELEMENT_MAX_BYTES {
        return Err(TagElementTooLarge(Utf8Len(tag[i])));
      }
      total := SaturatingAdd(total, Utf8Len(tag[i]));
    }
    return Ok(total);
  }

  predicate SmallElements(tag: Tag) {
    forall i :: 0 <= i < |tag| ==> Utf8Len(tag[i]) <= TAG_ELEMENT_MAX_BYTES
  }

  predicate AllSmall(tags: seq<Tag>) {
    forall i :: 0 <= i < |tags| ==> SmallElements(tags[i])
  }

  function Capped(n: nat): nat {
    if n > USIZE_MAX then USIZE_MAX else n
  }

  lemma {:induction false} FoldTagExact(total: nat, tag: Tag)
    requires total <= USIZE_MAX
    ensures SumBy(tag, ByteCount) >= 0
    ensures FoldTag(total, tag).Ok? <==> SmallElements(tag)
    ensures FoldTag(total, tag).Ok? ==> FoldTag(total, tag).value == Capped(total + SumBy(tag, ByteCount))
    decreases |tag|
  {
    if tag != [] {
      FoldTagExact(SaturatingAdd(total, Utf8Len(tag[0])), tag[1..]);
      assert SmallElements(tag) <==> Utf8Len(tag[0]) <= TAG_ELEMENT_MAX_BYTES && SmallElements(tag[1..]) by {
        assert forall i :: 0 < i < |tag| ==> tag[i] == tag[1..][i - 1];
      }
    }
  }

  lemma {:induction false} FoldTagsExact(total: nat, tags: seq<Tag>)
    requires total <= USIZE_MAX
    ensures SumBy(tags, ElementBytes) >= 0
    ensures FoldTags(total, tags).Ok? <==> AllSmall(tags)
    ensures FoldTags(total, tags).Ok? ==> FoldTags(total, tags).value == Capped(total + SumBy(tags, ElementBytes))
    decreases |tags|
  {
    if tags != [] {
      FoldTagExact(total, tags[0]);
      FoldTagsExact(Capped(total + SumBy(tags[0], ByteCount)), tags[1..]);
      assert AllSmall(tags) <==> SmallElements(tags[0]) && AllSmall(tags[1..]) by {
        assert forall i :: 0 < i < |tags| ==> tags[i] == tags[1..][i - 1];
      }
    }
  }

  lemma {:induction false} FoldWithin(tags: seq<Tag>, folded: Result<nat, BudgetError>)
    requires folded == FoldTags(0, tags)
    ensures folded.Ok? <==> AllSmall(tags)
    ensures folded.Ok? ==> (folded.value <= TAG_TOTAL_MAX_BYTES <==> SumBy(tags, ElementBytes) <= TAG_TOTAL_MAX_BYTES)
  {
    FoldTagsExact(0, tags);
  }

  /** The budget holds exactly when count, elements and their exact total stay within their limits. */
  lemma BudgetExact(description: Option<string>, tags: seq<Tag>)
    ensures Budget(description, tags).Ok? <==>
              && (description.Some? ==> Utf8Len(description.value) <= CONTENT_MAX_BYTES)
              && |tags| <= TAG_MAX_COUNT && AllSmall(tags) && SumBy(tags, ElementBytes) <= TAG_TOTAL_MAX_BYTES
  {
    FoldWithin(tags, FoldTags(0, tags));
  }

  // ----- the reader's envelope

  predicate KeyText(key: string) {
    key != "" && forall i :: 0 <= i < |key| ==> !Control(key[i])
  }

  /** What `validate_bounded_calendar_parts` demands of received tags and content. */
  predicate Bounded(tags: seq<Tag>, content: string) {
    && Utf8Len(content) <= CONTENT_MAX_BYTES && |tags| <= TAG_MAX_COUNT
    && (forall i :: 0 <= i < |tags| ==> tags[i] != [] && KeyText(tags[i][0]))
    && AllSmall(tags) && SumBy(tags, ElementBytes) <= TAG_TOTAL_MAX_BYTES
  }

  /** The same demands with their limits and characters written out. */
  lemma BoundedExact(tags: seq<Tag>, content: string)
    ensures Bounded(tags, content) <==>
              && Utf8Len(content) <= 131_072 && |tags| <= 1_024 && SumBy(tags, ElementBytes) <= 131_072
              && (forall tag: Tag | tag in tags ::
                    && tag != [] && tag[0] != "" && (forall c: char | c in tag[0] :: 32 <= c as int && !(127 <= c as int < 160))
                    && (forall value: string | value in tag :: Utf8Len(value) <= 4_096))
  {
    forall tag: Tag | tag != []
      ensures KeyText(tag[0]) <==> tag[0] != "" && forall c: char | c in tag[0] :: 32 <= c as int && !(127 <= c as int < 160)
    {
      assert forall i :: 0 <= i < |tag[0]| ==> tag[0][i] in tag[0];
    }
    forall tag: Tag
      ensures SmallElements(tag) <==> forall value: string | value in tag :: Utf8Len(value) <= 4_096
    {
      assert forall i :: 0 <= i < |tag| ==> tag[i] in tag;
    }
    assert forall i :: 0 <= i < |tags| ==> tags[i] in tags;
  }

  /** The inner loop: the running total stays exact, or an element or the total is over its limit. */
  method BoundElements(start: nat, tag: Tag) returns (r: Option<nat>)
    requires start <= TAG_TOTAL_MAX_BYTES
    ensures r.Some? <==> SmallElements(tag) && start + ElementBytes(tag) <= TAG_TOTAL_MAX_BYTES
    ensures r.Some? ==> r.value == start + ElementBytes(tag)
  {
    var total: nat := start;
    for k := 0 to |tag|
      invariant total == start + SumBy(tag[..k], ByteCount) <= TAG_TOTAL_MAX_BYTES
      invariant forall i :: 0 <= i < k ==> Utf8Len(tag[i]) <= TAG_ELEMENT_MAX_BYTES
    {
      if Utf8Len(tag[k]) > TAG_ELEMENT_MAX_BYTES {
        return None;
      }
      PrefixWeighs(tag, k, ByteCount);
      PrefixWeighs(tag, k + 1, ByteCount);
      total := SaturatingAdd(total, Utf8Len(tag[k]));
      if total > TAG_TOTAL_MAX_BYTES {
        return None;
      }
    }
    assert tag[..|tag|] == tag;
    return Some(total);
  }

  method ValidateBounded(tags: seq<Tag>, content: string) returns (bounded: bool)
    ensures bounded <==> Bounded(tags, content)
  {
    if Utf8Len(content) > CONTENT_MAX_BYTES || |tags| > TAG_MAX_COUNT {
      return false;
    }
    FoldTagsExact(0, tags);
    var total: nat := 0;
    for k := 0 to |tags|
      invariant total == SumBy(tags[..k], ElementBytes) <= TAG_TOTAL_MAX_BYTES
      invariant forall i :: 0 <= i < k ==> tags[i] != [] && KeyText(tags[i][0]) && SmallElements(tags[i])
    {
      if tags[k] == [] || !KeyText(tags[k][0]) {
        return false;
      }
      forall i | 0 <= i < |tags|
        ensures ElementBytes(tags[i]) >= 0
      {
        FoldTagExact(0, tags[i]);
      }
      PrefixWeighs(tags, k, ElementBytes);
      PrefixWeighs(tags, k + 1, ElementBytes);
      var next := BoundElements(total, tags[k]);
      if next.None? {
        return false;
      }
      total := next.value;
    }
    assert tags[..|tags|] == tags;
    return true;
  }

  /** A list written in parts under plain keys and within the authoring budget passes the reader's bounds. */
  lemma BudgetIsBounded(description: Option<string>, parts: seq<Part>)
    requires PartsKeyed(parts) && forall i :: 0 <= i < |parts| ==> KeyText(parts[i].key)
    requires Budget(description, Flatten(parts)).Ok?
    ensures Bounded(Flatten(parts), Content(description))
  {
    BudgetExact(description, Flatten(parts));
    PlainlyKeyed(parts);
  }

  lemma {:induction false} PlainlyKeyed(parts: seq<Part>)
    requires PartsKeyed(parts) && forall i :: 0 <= i < |parts| ==> KeyText(parts[i].key)
    ensures forall j :: 0 <= j < |Flatten(parts)| ==> Flatten(parts)[j] != [] && KeyText(Flatten(parts)[j][0])
  {
    if parts != [] {
      PlainlyKeyed(parts[..|parts| - 1]);
    }
  }

  /** The content of an event is its description, if it has one. */
  function Content(description: Option<string>): string {
    if description.Some? then description.value else ""
  }

  // ----- the keys of an event

  /** The position of a key among an event's keys; any other key is placed after them. */
  function Slot(key: string): nat {
    if |key| == 1 then LetterSlot(key[0])
    else if |key| == 3 then 3
    else if |key| == 5 then (if key[0] == 't' then 1 else if key[0] == 's' then 2 else 10)
    else if |key| == 7 then 9
    else if |key| == 8 then (if key[0] == 'e' then 6 else 7)
    else if |key| == 10 then 5
    else 15
  }

  function LetterSlot(c: char): nat {
    match c
    case 'd' => 0
    case 'D' => 4
    case 'g' => 8
    case 'p' => 11
    case 't' => 12
    case 'r' => 13
    case 'a' => 14
    case _ => 15
  }

  lemma CommonPartsPlaced(c: Common, i: nat)
    requires i < 8
    ensures var part := CommonParts(c)[i]; Slot(part.key) == i + 7 && KeyText(part.key)
  {
  }
}
