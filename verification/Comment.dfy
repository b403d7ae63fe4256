/** Authored comments of crates/event/src/comment.rs and their tags from
    crates/event_codec/src/comment/authored.rs. */
module Comments {
  import opened Digits
  import opened Json
  import opened Results
  import opened Sequences
  import opened Text

  const CONTENT_MAX_BYTES: nat := 128 * 1024
  const TAG_MAX_COUNT: nat := 1024
  const TAG_TOTAL_ELEMENT_MAX_COUNT: nat := 4096
  const TAG_ELEMENT_MAX_BYTES: nat := 4 * 1024
  const TAG_TOTAL_MAX_BYTES: nat := 128 * 1024
  const EVENT_WIRE_MAX_BYTES: nat := 256 * 1024
  const KIND_COMMENT: nat := 1111

  const SIGNED_EVENT_FIXED_MAX_BYTES: nat :=
    |"{\"id\":\""| + 64 + |"\",\"pubkey\":\""| + 64 + |"\",\"created_at\":"| + 20
    + |",\"kind\":1111,\"tags\":"| + |",\"content\":"| + |",\"sig\":\""| + 128 + |"\"}"|

  datatype CommentError =
    | ContentMissing
    | ContentTooLarge(actual: nat)
    | ParentReferenceMismatch
    | TagCountExceeded(actual: nat)
    | TagElementCountExceeded(actual: nat)
    | TagBytesExceeded(actual: nat)
    | EventWireTooLarge(actual: nat)

  datatype RootKind = Article | ClassifiedListing | CalendarDateEvent | CalendarTimeEvent {
    function Number(): nat {
      match this
      case Article => 30_023
      case ClassifiedListing => 30_402
      case CalendarDateEvent => 31_922
      case CalendarTimeEvent => 31_923
    }
  }

  // ----- validated references

  predicate FitsElement(s: string) {
    Utf8Len(s) <= TAG_ELEMENT_MAX_BYTES
  }

  predicate FitsRelay(relay: Option<string>) {
    relay.Some? ==> FitsElement(relay.value)
  }

  datatype EventRootParts = EventRootParts(eventId: string, author: string, kind: RootKind, relay: Option<string>)

  type EventRoot = r: EventRootParts | HexIdentity(r.eventId, 64) && HexIdentity(r.author, 64) && FitsRelay(r.relay)
    witness EventRootParts(seq(64, _ => '0'), seq(64, _ => '0'), Article, None)

  datatype AddressRootParts = AddressRootParts(coordinate: string, author: string, kind: RootKind, relay: Option<string>)

  type AddressRoot = r: AddressRootParts | FitsElement(r.coordinate) && HexIdentity(r.author, 64) && FitsRelay(r.relay)
    witness AddressRootParts("", seq(64, _ => '0'), Article, None)

  datatype ParentParts = ParentParts(eventId: string, author: string, relay: Option<string>)

  type Parent = p: ParentParts | HexIdentity(p.eventId, 64) && HexIdentity(p.author, 64) && FitsRelay(p.relay)
    witness ParentParts(seq(64, _ => '0'), seq(64, _ => '0'), None)

  type EventId = s: string | HexIdentity(s, 64) witness seq(64, _ => '0')

  datatype Root = RootEvent(event: EventRoot) | RootAddress(address: AddressRoot) {
    function Kind(): RootKind {
      if RootEvent? then event.kind else address.kind
    }

    function Author(): string {
      if RootEvent? then event.author else address.author
    }

    function Relay(): Option<string> {
      if RootEvent? then event.relay else address.relay
    }
  }

  datatype Position = TopLevelEvent | TopLevelAddress(currentRevision: EventId) | Nested(parent: Parent)

  /** The root and position pairs the public constructors can build. */
  predicate Compatible(root: Root, position: Position) {
    match position
    case TopLevelEvent => root.RootEvent?
    case TopLevelAddress(_) => root.RootAddress?
    case Nested(_) => true
  }

  // ----- the tags an authored comment is encoded with

  function RelayOrEmpty(relay: Option<string>): string {
    if relay.Some? then relay.value else ""
  }

  function OptionalRelayTag(name: string, value: string, relay: Option<string>): Tag {
    if relay.Some? then [name, value, relay.value] else [name, value]
  }

  function RootTags(root: Root): seq<Tag> {
    [if root.RootEvent?
     then ["E", root.event.eventId, RelayOrEmpty(root.event.relay), root.event.author]
     else OptionalRelayTag("A", root.address.coordinate, root.address.relay)]
    + [["K", NatText(root.Kind().Number())]]
    + [OptionalRelayTag("P", root.Author(), root.Relay())]
  }

  function PositionTags(root: Root, position: Position): seq<Tag>
    requires Compatible(root, position)
  {
    match position
    case TopLevelEvent =>
      var r := root.event;
      [["e", r.eventId, RelayOrEmpty(r.relay), r.author]] + [["k", NatText(r.kind.Number())]]
      + [OptionalRelayTag("p", r.author, r.relay)]
    case TopLevelAddress(revision) =>
      var r := root.address;
      [OptionalRelayTag("a", r.coordinate, r.relay)] + [OptionalRelayTag("e", revision, r.relay)]
      + [["k", NatText(r.kind.Number())]] + [OptionalRelayTag("p", r.author, r.relay)]
    case Nested(p) =>
      [["e", p.eventId, RelayOrEmpty(p.relay), p.author]] + [["k", NatText(KIND_COMMENT)]]
      + [OptionalRelayTag("p", p.author, p.relay)]
  }

  function CommentTags(root: Root, position: Position): seq<Tag>
    requires Compatible(root, position)
  {
    RootTags(root) + PositionTags(root, position)
  }

  // ----- the hand-counted element totals

  function RootElementCount(root: Root): nat {
    var relay := if root.Relay().Some? then 1 else 0;
    if root.RootEvent? then 8 + relay else 6 + 2 * relay
  }

  function PositionElementCount(root: Root, position: Position): nat
    requires Compatible(root, position)
  {
    match position
    case TopLevelEvent => 8 + (if root.event.relay.Some? then 1 else 0)
    case TopLevelAddress(_) => 8 + 3 * (if root.address.relay.Some? then 1 else 0)
    case Nested(p) => 8 + (if p.relay.Some? then 1 else 0)
  }

  lemma SumOfThree(a: Tag, b: Tag, c: Tag, weight: Tag -> int)
    ensures SumBy([a] + [b] + [c], weight) == weight(a) + weight(b) + weight(c)
  {
    SumByConcat([a] + [b], [c], weight);
    SumByConcat([a], [b], weight);
    assert [a][1..] == [] && [b][1..] == [] && [c][1..] == [];
  }

  /** The hand-counted total is the number of elements in the encoded tags. */
  lemma HandCountExact(root: Root, position: Position)
    requires Compatible(root, position)
    ensures SumBy(CommentTags(root, position), ElementCount)
         == RootElementCount(root) + PositionElementCount(root, position)
  {
    var r, p := RootTags(root), PositionTags(root, position);
    SumByConcat(r, p, ElementCount);
    SumOfThree(r[0], r[1], r[2], ElementCount);
    assert r == [r[0]] + [r[1]] + [r[2]];
    if position.TopLevelAddress? {
      SumByConcat(p[..3], p[3..], ElementCount);
      SumOfThree(p[0], p[1], p[2], ElementCount);
      assert p[..3] == [p[0]] + [p[1]] + [p[2]] && p == p[..3] + p[3..];
      assert p[3..][1..] == [];
    } else {
      SumOfThree(p[0], p[1], p[2], ElementCount);
      assert p == [p[0]] + [p[1]] + [p[2]];
    }
  }

  // ----- the estimator

  predicate BoundedTag(tag: Tag) {
    |tag| <= 4 && forall i :: 0 <= i < |tag| ==> FitsElement(tag[i])
  }

  predicate BoundedTags(tags: seq<Tag>) {
    forall i :: 0 <= i < |tags| ==> BoundedTag(tags[i])
  }

  lemma {:induction false} ElementsBound(tag: Tag)
    requires forall i :: 0 <= i < |tag| ==> FitsElement(tag[i])
    ensures 0 <= SumBy(tag, StringCost) <= 24_600 * |tag|
    ensures 0 <= SumBy(tag, ByteCount) <= 4_096 * |tag|
  {
    if tag != [] {
      var init, last := tag[..|tag| - 1], tag[|tag| - 1];
      CanonicalStringBytesExact(last);
      ElementsBound(init);
      StringTotalsAppend(init, last);
      assert tag == init + [last];
    }
  }

  lemma TagBound(tag: Tag)
    requires BoundedTag(tag)
    ensures 0 <= SumBy(tag, ByteCount) <= 16_384
    ensures 0 <= TagCost(tag) <= 100_000
  {
    ElementsBound(tag);
    TagJsonBytes(tag);
  }

  lemma {:induction false} TagsBound(tags: seq<Tag>)
    requires BoundedTags(tags)
    ensures 0 <= SumBy(tags, ElementBytes) <= 16_384 * |tags|
    ensures Utf8Len(TagsJson(tags)) <= 2 + 100_001 * |tags|
  {
    if tags == [] {
      TagsJsonBytes(tags);
    } else {
      var init, last := tags[..|tags| - 1], tags[|tags| - 1];
      TagsBound(init);
      TagBound(last);
      TagTotalsAppend(init, last);
      TagsJsonAppend(init, last);
      assert tags == init + [last];
    }
  }

  /** The loop over the elements of one tag. */
  method AddElements(startBytes: nat, startJson: nat, elements: Tag) returns (tagBytes: nat, tagsJsonBytes: nat)
    requires startBytes <= 200_000_000 && startJson <= 200_000_000 && BoundedTag(elements)
    ensures tagBytes == startBytes + SumBy(elements, ByteCount)
    ensures tagsJsonBytes == startJson + SumBy(elements, StringCost) + Separators(|elements|)
  {
    tagBytes, tagsJsonBytes := startBytes, startJson;
    for i := 0 to |elements|
      invariant tagsJsonBytes == startJson + SumBy(elements[..i], StringCost) + Separators(i)
      invariant tagBytes == startBytes + SumBy(elements[..i], ByteCount)
    {
      ElementsBound(elements[..i]);
      StringTotalsAppend(elements[..i], elements[i]);
      assert elements[..i + 1] == elements[..i] + [elements[i]];
      CanonicalStringBytesExact(elements[i]);
      if i > 0 {
        tagsJsonBytes := SaturatingAdd(tagsJsonBytes, 1);
      }
      tagsJsonBytes := SaturatingAdd(tagsJsonBytes, CanonicalStringBytes(elements[i]));
      tagBytes := SaturatingAdd(tagBytes, Utf8Len(elements[i]));
    }
    assert elements[..|elements|] == elements;
  }

  method AddTag(m: Meter, elements: Tag, ghost tags: seq<Tag>) returns (r: Meter)
    requires Measures(m, tags) && BoundedTags(tags) && |tags| < TAG_MAX_COUNT && BoundedTag(elements)
    ensures Measures(r, tags + [elements]) && BoundedTags(tags + [elements])
  {
    TagsBound(tags);
    TagJsonBytes(elements);
    TagsJsonAppend(tags, elements);
    TagTotalsAppend(tags, elements);
    var tagsJsonBytes := m.tagsJsonBytes;
    if m.tagCount > 0 {
      tagsJsonBytes := SaturatingAdd(tagsJsonBytes, 1);
    }
    tagsJsonBytes := SaturatingAdd(tagsJsonBytes, 2);
    var tagBytes, total := AddElements(m.tagBytes, tagsJsonBytes, elements);
    return Meter(tagBytes, total, SaturatingAdd(m.tagCount, 1));
  }

  method AddOptionalRelayTag(m: Meter, name: string, value: string, relay: Option<string>, ghost tags: seq<Tag>)
    returns (r: Meter)
    requires Measures(m, tags) && BoundedTags(tags) && |tags| < TAG_MAX_COUNT
    requires FitsElement(name) && FitsElement(value) && FitsRelay(relay)
    ensures Measures(r, tags + [OptionalRelayTag(name, value, relay)])
    ensures BoundedTags(tags + [OptionalRelayTag(name, value, relay)])
  {
    if relay.Some? {
      r := AddTag(m, [name, value, relay.value], tags);
    } else {
      r := AddTag(m, [name, value], tags);
    }
  }

  lemma NumberFits(n: nat)
    requires n < 1_000_000
    ensures FitsElement(NatText(n))
  {
    NatTextLength(n, 6);
    Pow10Table();
    NatTextBytes(n);
  }

  lemma HexFits(s: string)
    requires HexIdentity(s, 64)
    ensures FitsElement(s)
  {
    AsciiLength(s);
  }

  lemma NamesFit()
    ensures FitsElement("E") && FitsElement("A") && FitsElement("K") && FitsElement("P")
    ensures FitsElement("e") && FitsElement("a") && FitsElement("k") && FitsElement("p") && FitsElement("")
  {
    AsciiLength("E");
    AsciiLength("A");
    AsciiLength("K");
    AsciiLength("P");
    AsciiLength("e");
    AsciiLength("a");
    AsciiLength("k");
    AsciiLength("p");
  }

  method MeterRoot(root: Root) returns (m: Meter)
    ensures Measures(m, RootTags(root)) && BoundedTags(RootTags(root))
  {
    ghost var all := RootTags(root);
    EmptyMeasures();
    NamesFit();
    NumberFits(root.Kind().Number());
    HexFits(root.Author());
    m := Meter(0, 2, 0);
    match root {
      case RootEvent(reference) =>
        HexFits(reference.eventId);
        m := AddTag(m, ["E", reference.eventId, RelayOrEmpty(reference.relay), reference.author], []);
      case RootAddress(reference) =>
        m := AddOptionalRelayTag(m, "A", reference.coordinate, reference.relay, []);
    }
    assert [] + [all[0]] == [all[0]];
    m := AddTag(m, ["K", NatText(root.Kind().Number())], [all[0]]);
    m := AddOptionalRelayTag(m, "P", root.Author(), root.Relay(), [all[0]] + [all[1]]);
    assert all == [all[0]] + [all[1]] + [all[2]];
  }

  lemma ThreeMore(tags: seq<Tag>, a: Tag, b: Tag, c: Tag)
    ensures tags + [a] + [b] + [c] == tags + ([a] + [b] + [c])
  {
  }

  /** The arms for an event reference: the root itself, or the parent comment. */
  method MeterEventReference(start: Meter, eventId: EventId, author: EventId, relay: Option<string>, kind: nat,
                             ghost tags: seq<Tag>)
    returns (m: Meter)
    requires Measures(start, tags) && BoundedTags(tags) && |tags| == 3 && FitsRelay(relay) && kind < 1_000_000
    ensures var added := [["e", eventId, RelayOrEmpty(relay), author]] + [["k", NatText(kind)]]
                         + [OptionalRelayTag("p", author, relay)];
            Measures(m, tags + added) && BoundedTags(tags + added)
  {
    NamesFit();
    NumberFits(kind);
    HexFits(eventId);
    HexFits(author);
    ghost var e, k, p := ["e", eventId, RelayOrEmpty(relay), author], ["k", NatText(kind)], OptionalRelayTag("p", author, relay);
    m := AddTag(start, ["e", eventId, RelayOrEmpty(relay), author], tags);
    m := AddTag(m, ["k", NatText(kind)], tags + [e]);
    m := AddOptionalRelayTag(m, "p", author, relay, tags + [e] + [k]);
    ThreeMore(tags, e, k, p);
  }

  /** The arm for an address root and the revision the comment was written against. */
  method MeterAddressReference(start: Meter, r: AddressRoot, revision: EventId, ghost tags: seq<Tag>) returns (m: Meter)
    requires Measures(start, tags) && BoundedTags(tags) && |tags| == 3
    ensures var added := PositionTags(RootAddress(r), TopLevelAddress(revision));
            Measures(m, tags + added) && BoundedTags(tags + added)
  {
    NamesFit();
    NumberFits(r.kind.Number());
    HexFits(revision);
    HexFits(r.author);
    ghost var added := PositionTags(RootAddress(r), TopLevelAddress(revision));
    ghost var a, e, k, p := added[0], added[1], added[2], added[3];
    m := AddOptionalRelayTag(start, "a", r.coordinate, r.relay, tags);
    m := AddOptionalRelayTag(m, "e", revision, r.relay, tags + [a]);
    m := AddTag(m, ["k", NatText(r.kind.Number())], tags + [a] + [e]);
    m := AddOptionalRelayTag(m, "p", r.author, r.relay, tags + [a] + [e] + [k]);
    assert tags + added == tags + [a] + [e] + [k] + [p];
  }

  method MeterPosition(start: Meter, root: Root, position: Position, ghost tags: seq<Tag>) returns (m: Meter)
    requires Compatible(root, position) && Measures(start, tags) && BoundedTags(tags) && |tags| == 3
    ensures Measures(m, tags + PositionTags(root, position)) && BoundedTags(tags + PositionTags(root, position))
  {
    match position {
      case TopLevelEvent =>
        m := MeterEventReference(start, root.event.eventId, root.event.author, root.event.relay,
                                 root.event.kind.Number(), tags);
      case TopLevelAddress(revision) =>
        m := MeterAddressReference(start, root.address, revision, tags);
      case Nested(parent) =>
        m := MeterEventReference(start, parent.eventId, parent.author, parent.relay, KIND_COMMENT, tags);
    }
  }

  // ----- the outcome

  /** The size of the signed JSON at the largest timestamp. */
  function CommentSize(content: string, root: Root, position: Position): nat
    requires Compatible(root, position)
  {
    SIGNED_EVENT_FIXED_MAX_BYTES + Utf8Len(TagsJson(CommentTags(root, position))) + Utf8Len(JsonString(content))
  }

  /** The closing sum is exact and the six or seven tags stay far inside the tag budgets. */
  lemma NothingSaturates(content: string, m: Meter, tags: seq<Tag>)
    requires Utf8Len(content) <= CONTENT_MAX_BYTES
    requires BoundedTags(tags) && |tags| <= 7 && Measures(m, tags)
    ensures m.tagBytes <= TAG_TOTAL_MAX_BYTES && m.tagCount <= 7
    ensures SaturatingAdd(SaturatingAdd(SIGNED_EVENT_FIXED_MAX_BYTES, m.tagsJsonBytes), CanonicalStringBytes(content))
         == SIGNED_EVENT_FIXED_MAX_BYTES + Utf8Len(TagsJson(tags)) + Utf8Len(JsonString(content))
  {
    TagsBound(tags);
    CanonicalStringBytesExact(content);
  }

  lemma SmallCounts(root: Root, position: Position)
    requires Compatible(root, position)
    ensures |CommentTags(root, position)| <= 7
    ensures RootElementCount(root) + PositionElementCount(root, position) <= 40
  {
  }

  lemma LimitsOutOfReach(content: string, root: Root, position: Position, m: Meter)
    requires Compatible(root, position) && Utf8Len(content) <= CONTENT_MAX_BYTES
    requires var tags := CommentTags(root, position);
             BoundedTags(tags) && Measures(m, tags)
    ensures m.tagBytes <= TAG_TOTAL_MAX_BYTES && m.tagCount <= 7
    ensures RootElementCount(root) + PositionElementCount(root, position) <= 40
    ensures SaturatingAdd(SaturatingAdd(SIGNED_EVENT_FIXED_MAX_BYTES, m.tagsJsonBytes), CanonicalStringBytes(content))
         == CommentSize(content, root, position)
  {
    SmallCounts(root, position);
    NothingSaturates(content, m, CommentTags(root, position));
  }

  /** Validation computes the exact size and can only complain about it: with validated references
      the tag count, element count and tag byte limits are out of reach. */
  method ValidateWireSize(content: string, root: Root, position: Position) returns (r: Result<(), CommentError>)
    requires Compatible(root, position) && Utf8Len(content) <= CONTENT_MAX_BYTES
    ensures var size := CommentSize(content, root, position);
            r == if size > EVENT_WIRE_MAX_BYTES then Err(EventWireTooLarge(size)) else Ok(())
  {
    var m := MeterRoot(root);
    var rootElements := RootElementCount(root);
    m := MeterPosition(m, root, position, RootTags(root));
    var positionElements := PositionElementCount(root, position);
    LimitsOutOfReach(content, root, position, m);
    if m.tagCount > TAG_MAX_COUNT {
      return Err(TagCountExceeded(m.tagCount));
    }
    var elements: nat := SaturatingAdd(rootElements, positionElements);
    if elements > TAG_TOTAL_ELEMENT_MAX_COUNT {
      return Err(TagElementCountExceeded(elements));
    }
    if m.tagBytes > TAG_TOTAL_MAX_BYTES {
      return Err(TagBytesExceeded(m.tagBytes));
    }
    var actual := SaturatingAdd(SaturatingAdd(SIGNED_EVENT_FIXED_MAX_BYTES, m.tagsJsonBytes),
                                CanonicalStringBytes(content));
    if actual > EVENT_WIRE_MAX_BYTES {
      return Err(EventWireTooLarge(actual));
    }
    return Ok(());
  }

  // ----- constructors

  datatype Comment = Comment(content: string, root: Root, position: Position)

  function ContentFault(content: string): Option<CommentError> {
    if Blank(content) then Some(ContentMissing)
    else if Utf8Len(content) > CONTENT_MAX_BYTES then Some(ContentTooLarge(Utf8Len(content)))
    else None
  }

  /** What the shared private constructor returns. */
  function Authored(content: string, root: Root, position: Position): Result<Comment, CommentError>
    requires Compatible(root, position)
  {
    Sized(content, root, position, CommentSize(content, root, position))
  }

  function Sized(content: string, root: Root, position: Position, size: nat): Result<Comment, CommentError> {
    if ContentFault(content).Some? then Err(ContentFault(content).value)
    else if size > EVENT_WIRE_MAX_BYTES then Err(EventWireTooLarge(size))
    else Ok(Comment(content, root, position))
  }

  /** A comment is authored exactly from content that is not blank and fits, when the whole fits the wire, and holds
      what it was given; each refusal names its own fault. */
  lemma SizedExactly(content: string, root: Root, position: Position, size: nat)
    ensures Sized(content, root, position, size)
         == if forall i :: 0 <= i < |content| ==> WhiteSpace(content[i]) then Err(ContentMissing)
            else if Utf8Len(content) > 131_072 then Err(ContentTooLarge(Utf8Len(content)))
            else if size > 262_144 then Err(EventWireTooLarge(size))
            else Ok(Comment(content, root, position))
  {
  }

  method NewComment(content: string, root: Root, position: Position) returns (r: Result<Comment, CommentError>)
    requires Compatible(root, position)
    ensures r == Authored(content, root, position)
  {
    if ContentFault(content).Some? {
      return Err(ContentFault(content).value);
    }
    var wire := ValidateWireSize(content, root, position);
    if wire.Err? {
      return Err(wire.error);
    }
    return Ok(Comment(content, root, position));
  }

  method NewTopLevelEvent(content: string, root: EventRoot) returns (r: Result<Comment, CommentError>)
    ensures r == Authored(content, RootEvent(root), TopLevelEvent)
  {
    r := NewComment(content, RootEvent(root), TopLevelEvent);
  }

  method NewTopLevelAddress(content: string, root: AddressRoot, revision: EventId)
    returns (r: Result<Comment, CommentError>)
    ensures r == Authored(content, RootAddress(root), TopLevelAddress(revision))
  {
    r := NewComment(content, RootAddress(root), TopLevelAddress(revision));
  }

  method NewNested(content: string, root: Root, parent: Parent) returns (r: Result<Comment, CommentError>)
    ensures r == if root.RootEvent? && root.event.eventId == parent.eventId then Err(ParentReferenceMismatch)
                 else Authored(content, root, Nested(parent))
  {
    if root.RootEvent? && root.event.eventId == parent.eventId {
      return Err(ParentReferenceMismatch);
    }
    r := NewComment(content, root, Nested(parent));
  }

  lemma FixedBytesAgree()
    ensures SIGNED_EVENT_FIXED_MAX_BYTES == FixedBytes(KIND_COMMENT) + 20
  {
    NatTextLength(1111, 4);
    NatTextLength(1111, 3);
    Pow10Table();
  }

  /** The measured size is the printed length at the largest timestamp and bounds all others, so
      an accepted comment fits the wire however it is signed, and a refused size really overflows it. */
  lemma CommentSizeIsPrinted(content: string, root: Root, position: Position,
                             id: string, pubkey: string, sig: string, createdAt: U64)
    requires Compatible(root, position)
    requires HexIdentity(id, 64) && HexIdentity(pubkey, 64) && HexIdentity(sig, 128)
    ensures Utf8Len(SignedEventJson(id, pubkey, U64_MAX, KIND_COMMENT, CommentTags(root, position), content, sig))
         == CommentSize(content, root, position)
    ensures Authored(content, root, position).Ok? ==>
              Utf8Len(SignedEventJson(id, pubkey, createdAt, KIND_COMMENT, CommentTags(root, position), content, sig))
              <= EVENT_WIRE_MAX_BYTES
  {
    SignedEventAtMost(id, pubkey, createdAt, KIND_COMMENT, CommentTags(root, position), content, sig);
    FixedBytesAgree();
  }
}
