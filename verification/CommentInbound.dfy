/** Received comments: the projection of crates/event_codec/src/comment/inbound/registry_v7.rs. */
module CommentInbound {
  import opened Comments
  import opened Coordinates
  import opened Digits
  import opened InboundBudget
  import opened Json
  import opened Results
  import opened Sequences
  import opened Tags
  import opened Text

  datatype ProjectionError =
    | UnsupportedKind(actual: nat)
    | EmptyContent
    | LargeContent(actual: nat)
    | OverBudget
    | RootFormUnsupported
    | ParentFormUnsupported
    | RootCardinality(actual: nat)
    | RootKindCardinality(actual: nat)
    | RootAuthorCardinality(actual: nat)
    | ParentKindCardinality(actual: nat)
    | RootKindUnsupported
    | RootAuthorInvalid
    | RootReferenceShape
    | RootEventIdInvalid
    | RootCoordinateInvalid
    | RootKindMismatch
    | RootAuthorMismatch
    | ParentKindInvalid
    | ParentCardinality(events: nat, addresses: nat)
    | ParentReferenceShape
    | ParentEventIdInvalid
    | ParentCoordinateInvalid
    | ParentMismatch
    | RevisionMissing(actual: nat)
    | RevisionShape
    | RevisionEventIdInvalid
    | ParentAuthorMissing
    | ParentAuthorMismatch
    | ParentAuthorAmbiguous

  /** `keyOk` stands for the curve and `relayOk` for the relay hint grammar. */
  datatype Reader = Reader(keyOk: string -> bool, relayOk: string -> bool)

  datatype Participant = Participant(pubkey: string, relay: Option<string>)

  datatype InboundRoot =
    | EventRootRead(eventId: string, kind: RootKind, relay: Option<string>, authorHint: Option<string>, author: Participant)
    | AddressRootRead(coordinate: string, kind: RootKind, relay: Option<string>, author: Participant)

  datatype InboundPosition =
    | OnEvent(eventId: string, kind: nat, relay: Option<string>, authorHint: Option<string>, author: Participant)
    | OnAddress(coordinate: string, kind: nat, relay: Option<string>, author: Participant,
                revision: string, revisionRelay: Option<string>)
    | ReplyTo(eventId: string, kind: nat, relay: Option<string>, authorHint: Option<string>, author: Participant)

  datatype Projection = Projection(root: InboundRoot, position: InboundPosition, mentions: seq<Participant>)

  // ----- readers of single tags

  /** A relay hint is advisory: an absent, empty or malformed one is no hint. */
  function ReadRelay(g: Reader, tag: Tag): Option<string> {
    if |tag| > 2 && tag[2] != "" && g.relayOk(tag[2]) then Some(tag[2]) else None
  }

  function ReadHint(g: Reader, tag: Tag): Option<string> {
    if |tag| > 3 then ParseKey(g.keyOk, tag[3]) else None
  }

  /** `Nip22CommentRootKind::parse`. */
  function ParseRootKind(number: nat): Option<RootKind> {
    match number
    case 30023 => Some(Article)
    case 30402 => Some(ClassifiedListing)
    case 31922 => Some(CalendarDateEvent)
    case 31923 => Some(CalendarTimeEvent)
    case _ => None
  }

  /** Decimal digits without a leading zero that fit 32 bits. */
  function CanonicalKind(value: string): Option<nat> {
    if value == "" || !AllDigits(value) || (|value| > 1 && value[0] == '0') || DigitsValue(value) > U32_MAX then None
    else Some(DigitsValue(value))
  }

  function ReadKind(tag: Tag): Option<nat> {
    if |tag| == 2 then CanonicalKind(tag[1]) else None
  }

  function ReadParticipant(g: Reader, tag: Tag): Option<Participant> {
    if |tag| != 2 && |tag| != 3 then None
    else
      var key := ParseKey(g.keyOk, tag[1]);
      if key.None? then None else Some(Participant(key.value, ReadRelay(g, tag)))
  }

  predicate Knows(ps: seq<Participant>, key: string) {
    exists i :: 0 <= i < |ps| && ps[i].pubkey == key
  }

  /** Valid participants in order, the first of each key. */
  function ReadParticipants(g: Reader, tags: seq<Tag>): seq<Participant> {
    if tags == [] then []
    else
      var init := ReadParticipants(g, tags[..|tags| - 1]);
      var last := ReadParticipant(g, tags[|tags| - 1]);
      if last.None? || Knows(init, last.value.pubkey) then init else init + [last.value]
  }

  method CollectParticipants(g: Reader, tags: seq<Tag>) returns (ps: seq<Participant>)
    ensures ps == ReadParticipants(g, tags)
  {
    ps := [];
    for i := 0 to |tags|
      invariant ps == ReadParticipants(g, tags[..i])
    {
      assert tags[..i + 1][..i] == tags[..i];
      var participant := ReadParticipant(g, tags[i]);
      if participant.Some? && !Knows(ps, participant.value.pubkey) {
        ps := ps + [participant.value];
      }
    }
    assert tags[..|tags|] == tags;
  }

  datatype EventReference = EventReference(eventId: string, relay: Option<string>, authorHint: Option<string>)

  function ReadEventReference(g: Reader, tag: Tag, shape: ProjectionError, invalid: ProjectionError)
    : Result<EventReference, ProjectionError>
  {
    if !(2 <= |tag| <= 4) then Err(shape)
    else if ParseId(tag[1]).None? then Err(invalid)
    else Ok(EventReference(ParseId(tag[1]).value, ReadRelay(g, tag), ReadHint(g, tag)))
  }

  datatype AddressReference = AddressReference(coordinate: string, author: string, kind: RootKind, relay: Option<string>)

  function ReadAddressReference(g: Reader, tag: Tag, shape: ProjectionError, invalid: ProjectionError)
    : Result<AddressReference, ProjectionError>
  {
    if |tag| != 2 && |tag| != 3 then Err(shape)
    else
      var colon := IndexOf(tag[1], ':');
      var token := if colon == |tag[1]| then None else CanonicalKind(tag[1][..colon]);
      var parts := ParseAddressable(g.keyOk, tag[1]);
      if token.None? || parts.None? || Some(parts.value.kind) != token || ParseRootKind(parts.value.kind).None? then
        Err(invalid)
      else
        Ok(AddressReference(CoordinateText(parts.value), parts.value.pubkey, ParseRootKind(parts.value.kind).value,
                            ReadRelay(g, tag)))
  }

  // ----- the author of the parent

  function IndexOfKey(ps: seq<Participant>, key: string): (k: nat)
    ensures k <= |ps| && (k < |ps| ==> ps[k].pubkey == key)
    ensures forall i :: 0 <= i < k ==> ps[i].pubkey != key
  {
    if ps == [] || ps[0].pubkey == key then 0 else 1 + IndexOfKey(ps[1..], key)
  }

  function Take(ps: seq<Participant>, key: string): Result<(Participant, seq<Participant>), ProjectionError> {
    var k := IndexOfKey(ps, key);
    if k == |ps| then Err(ParentAuthorMismatch) else Ok((ps[k], ps[..k] + ps[k + 1..]))
  }

  /** `select_direct_parent_author`. */
  function DirectAuthor(ps: seq<Participant>, expected: string, hint: Option<string>)
    : Result<(Participant, seq<Participant>), ProjectionError>
  {
    if ps == [] then Err(ParentAuthorMissing)
    else if hint.Some? && hint.value != expected then Err(ParentAuthorMismatch)
    else Take(ps, expected)
  }

  /** `select_nested_parent_author`. */
  function NestedAuthor(ps: seq<Participant>, hint: Option<string>): Result<(Participant, seq<Participant>), ProjectionError> {
    if ps == [] then Err(ParentAuthorMissing)
    else if hint.Some? then Take(ps, hint.value)
    else if |ps| > 1 then Err(ParentAuthorAmbiguous)
    else Ok((ps[0], []))
  }

  // ----- the projection

  /** The tags of the eight names that carry authority. */
  datatype Authority = Authority(
    eventRoots: seq<Tag>,
    addressRoots: seq<Tag>,
    rootKinds: seq<Tag>,
    rootAuthors: seq<Tag>,
    parentEvents: seq<Tag>,
    parentAddresses: seq<Tag>,
    parentKinds: seq<Tag>,
    participants: seq<Tag>)

  function AuthorityOf(tags: seq<Tag>): Authority {
    Authority(Matching(tags, "E"), Matching(tags, "A"), Matching(tags, "K"), Matching(tags, "P"),
              Matching(tags, "e"), Matching(tags, "a"), Matching(tags, "k"), Matching(tags, "p"))
  }

  function ReadEventRoot(g: Reader, tag: Tag, kind: RootKind, author: Participant): Result<InboundRoot, ProjectionError> {
    var reference :- ReadEventReference(g, tag, RootReferenceShape, RootEventIdInvalid);
    if reference.authorHint.Some? && reference.authorHint.value != author.pubkey then Err(RootAuthorMismatch)
    else Ok(EventRootRead(reference.eventId, kind, reference.relay, reference.authorHint, author))
  }

  function ReadAddressRoot(g: Reader, tag: Tag, kind: RootKind, author: Participant): Result<InboundRoot, ProjectionError> {
    var reference :- ReadAddressReference(g, tag, RootReferenceShape, RootCoordinateInvalid);
    if reference.kind != kind then Err(RootKindMismatch)
    else if reference.author != author.pubkey then Err(RootAuthorMismatch)
    else Ok(AddressRootRead(reference.coordinate, kind, reference.relay, author))
  }

  /** The kind named for the parent: the root's own, or a comment's. */
  function ReadParentKind(tag: Tag, root: RootKind): Result<nat, ProjectionError> {
    var kind := ReadKind(tag);
    if kind.None? || (kind.value != KIND_COMMENT && ParseRootKind(kind.value).None?) then Err(ParentKindInvalid)
    else if kind.value != root.Number() && kind.value != KIND_COMMENT then Err(ParentKindInvalid)
    else Ok(kind.value)
  }

  function ReadOnEvent(g: Reader, a: Authority, root: InboundRoot, kind: nat, ps: seq<Participant>)
    : Result<Projection, ProjectionError>
    requires root.EventRootRead?
  {
    if |a.parentEvents| != 1 || |a.parentAddresses| != 0 then Err(ParentCardinality(|a.parentEvents|, |a.parentAddresses|))
    else
      var parent :- ReadEventReference(g, a.parentEvents[0], ParentReferenceShape, ParentEventIdInvalid);
      if parent.eventId != root.eventId then Err(ParentMismatch)
      else
        var chosen :- DirectAuthor(ps, root.author.pubkey, parent.authorHint);
        Ok(Projection(root, OnEvent(parent.eventId, kind, parent.relay, parent.authorHint, chosen.0), chosen.1))
  }

  function ReadOnAddress(g: Reader, a: Authority, root: InboundRoot, kind: nat, ps: seq<Participant>)
    : Result<Projection, ProjectionError>
    requires root.AddressRootRead?
  {
    if |a.parentAddresses| != 1 then Err(ParentCardinality(|a.parentEvents|, |a.parentAddresses|))
    else if |a.parentEvents| != 1 then Err(RevisionMissing(|a.parentEvents|))
    else
      var parent :- ReadAddressReference(g, a.parentAddresses[0], ParentReferenceShape, ParentCoordinateInvalid);
      if parent.coordinate != root.coordinate then Err(ParentMismatch)
      else
        var revision := a.parentEvents[0];
        if |revision| != 2 && |revision| != 3 then Err(RevisionShape)
        else if ParseId(revision[1]).None? then Err(RevisionEventIdInvalid)
        else
          var chosen :- DirectAuthor(ps, root.author.pubkey, None);
          Ok(Projection(root, OnAddress(parent.coordinate, kind, parent.relay, chosen.0, ParseId(revision[1]).value,
                                        ReadRelay(g, revision)), chosen.1))
  }

  function ReadReply(g: Reader, a: Authority, root: InboundRoot, kind: nat, ps: seq<Participant>)
    : Result<Projection, ProjectionError>
  {
    if |a.parentEvents| != 1 || |a.parentAddresses| != 0 then Err(ParentCardinality(|a.parentEvents|, |a.parentAddresses|))
    else
      var parent :- ReadEventReference(g, a.parentEvents[0], ParentReferenceShape, ParentEventIdInvalid);
      if root.EventRootRead? && parent.eventId == root.eventId then Err(ParentMismatch)
      else
        var chosen :- NestedAuthor(ps, parent.authorHint);
        Ok(Projection(root, ReplyTo(parent.eventId, kind, parent.relay, parent.authorHint, chosen.0), chosen.1))
  }

  /** The root read from authority tags with one root, one kind and one author. */
  function ReadRoot(g: Reader, a: Authority): Result<InboundRoot, ProjectionError>
    requires |a.eventRoots| + |a.addressRoots| == 1 && |a.rootKinds| == |a.rootAuthors| == 1
  {
    var number := ReadKind(a.rootKinds[0]);
    if number.None? || ParseRootKind(number.value).None? then Err(RootKindUnsupported)
    else
      var author := ReadParticipant(g, a.rootAuthors[0]);
      if author.None? then Err(RootAuthorInvalid)
      else if a.eventRoots != [] then ReadEventRoot(g, a.eventRoots[0], ParseRootKind(number.value).value, author.value)
      else ReadAddressRoot(g, a.addressRoots[0], ParseRootKind(number.value).value, author.value)
  }

  /** The three ways to read a position. */
  function ReadPosition(g: Reader, a: Authority, root: InboundRoot, kind: nat): Result<Projection, ProjectionError> {
    var ps := ReadParticipants(g, a.participants);
    if kind != root.kind.Number() then ReadReply(g, a, root, kind, ps)
    else if root.EventRootRead? then ReadOnEvent(g, a, root, kind, ps)
    else ReadOnAddress(g, a, root, kind, ps)
  }

  function ReadAuthority(g: Reader, a: Authority): Result<Projection, ProjectionError> {
    if |a.eventRoots| + |a.addressRoots| != 1 then Err(RootCardinality(|a.eventRoots| + |a.addressRoots|))
    else if |a.rootKinds| != 1 then Err(RootKindCardinality(|a.rootKinds|))
    else if |a.rootAuthors| != 1 then Err(RootAuthorCardinality(|a.rootAuthors|))
    else if |a.parentKinds| != 1 then Err(ParentKindCardinality(|a.parentKinds|))
    else
      var root :- ReadRoot(g, a);
      var kind :- ReadParentKind(a.parentKinds[0], root.kind);
      ReadPosition(g, a, root, kind)
  }

  const FIXED_BYTES: nat := SIGNED_EVENT_FIXED_MAX_BYTES - 20

  /** `project_nip22_comment_parts`. */
  function Project(g: Reader, kind: nat, tags: seq<Tag>, content: string, createdAt: U64): Result<Projection, ProjectionError> {
    if kind != KIND_COMMENT then Err(UnsupportedKind(kind))
    else if Blank(content) then Err(EmptyContent)
    else if Utf8Len(content) > CONTENT_MAX_BYTES then Err(LargeContent(Utf8Len(content)))
    else if !WithinBudgets(FIXED_BYTES, tags, content, |NatText(createdAt)|) then Err(OverBudget)
    else if Matching(tags, "I") != [] then Err(RootFormUnsupported)
    else if Matching(tags, "i") != [] then Err(ParentFormUnsupported)
    else ReadAuthority(g, AuthorityOf(tags))
  }

  // ----- exactly what is accepted, from the tags themselves

  /** The wire number of a root kind. */
  lemma KindNumbers(kind: RootKind)
    ensures kind.Number() == match kind
                             case Article => 30_023
                             case ClassifiedListing => 30_402
                             case CalendarDateEvent => 31_922
                             case CalendarTimeEvent => 31_923
    ensures ParseRootKind(kind.Number()) == Some(kind) && kind.Number() != 1_111
  {
  }

  /** A kind is read exactly from its canonical text. */
  lemma CanonicalKindExact(value: string, n: nat)
    ensures CanonicalKind(value) == Some(n) <==> value == NatText(n) && n <= 4_294_967_295
  {
    if CanonicalKind(value) == Some(n) {
      NatTextOfValue(value);
    }
    NatTextIsCanonical(n);
  }

  predicate KeyIs(g: Reader, s: string, key: string) {
    ParseId(s) == Some(key) && g.keyOk(key)
  }

  /** The relay named by the third element, if it names one. */
  predicate NamesRelay(g: Reader, tag: Tag, relay: Option<string>) {
    match relay
    case Some(r) => |tag| > 2 && tag[2] == r && r != "" && g.relayOk(r)
    case None => |tag| <= 2 || tag[2] == "" || !g.relayOk(tag[2])
  }

  /** The author named by the fourth element, if it names one. */
  ghost predicate NamesHint(g: Reader, tag: Tag, hint: Option<string>) {
    match hint
    case Some(key) => |tag| > 3 && KeyIs(g, tag[3], key)
    case None => |tag| > 3 ==> forall key :: !KeyIs(g, tag[3], key)
  }

  ghost predicate NamesEvent(g: Reader, tag: Tag, id: string, relay: Option<string>, hint: Option<string>) {
    2 <= |tag| <= 4 && ParseId(tag[1]) == Some(id) && NamesRelay(g, tag, relay) && NamesHint(g, tag, hint)
  }

  predicate NamesParticipant(g: Reader, tag: Tag, p: Participant) {
    2 <= |tag| <= 3 && KeyIs(g, tag[1], p.pubkey) && NamesRelay(g, tag, p.relay)
  }

  /** A coordinate of a root kind with that kind in canonical digits, a key in either case and a visible identifier. */
  ghost predicate SpellsAddress(g: Reader, s: string, coordinate: string, kind: RootKind, author: string) {
    exists key, d :: && s == NatText(kind.Number()) + ":" + key + ":" + d && KeyIs(g, key, author) && DTag(d)
                     && coordinate == NatText(kind.Number()) + ":" + author + ":" + d
  }

  ghost predicate NamesAddress(g: Reader, tag: Tag, coordinate: string, kind: RootKind, author: string, relay: Option<string>) {
    2 <= |tag| <= 3 && SpellsAddress(g, tag[1], coordinate, kind, author) && NamesRelay(g, tag, relay)
  }

  predicate NamesKind(tag: Tag, kind: nat) {
    |tag| == 2 && tag[1] == NatText(kind)
  }

  lemma RelayExact(g: Reader, tag: Tag, relay: Option<string>)
    ensures ReadRelay(g, tag) == relay <==> NamesRelay(g, tag, relay)
  {
  }

  lemma HintExact(g: Reader, tag: Tag, hint: Option<string>)
    ensures ReadHint(g, tag) == hint <==> NamesHint(g, tag, hint)
  {
    if |tag| > 3 && ParseKey(g.keyOk, tag[3]).Some? {
      assert KeyIs(g, tag[3], ParseKey(g.keyOk, tag[3]).value);
    }
  }

  lemma EventReferenceExact(g: Reader, tag: Tag, shape: ProjectionError, invalid: ProjectionError, r: EventReference)
    ensures ReadEventReference(g, tag, shape, invalid) == Ok(r) <==> NamesEvent(g, tag, r.eventId, r.relay, r.authorHint)
  {
    RelayExact(g, tag, r.relay);
    HintExact(g, tag, r.authorHint);
  }

  lemma ParticipantExact(g: Reader, tag: Tag, p: Participant)
    ensures ReadParticipant(g, tag) == Some(p) <==> NamesParticipant(g, tag, p)
  {
    RelayExact(g, tag, p.relay);
  }

  lemma RootKindExact(number: nat, kind: RootKind)
    ensures ParseRootKind(number) == Some(kind) <==> number == kind.Number()
  {
    KindNumbers(kind);
  }

  lemma AddressReferenceExact(g: Reader, tag: Tag, shape: ProjectionError, invalid: ProjectionError, r: AddressReference)
    ensures ReadAddressReference(g, tag, shape, invalid) == Ok(r) <==>
              NamesAddress(g, tag, r.coordinate, r.kind, r.author, r.relay)
  {
    if 2 <= |tag| <= 3 {
      RelayExact(g, tag, r.relay);
      KindNumbers(r.kind);
      if ReadAddressReference(g, tag, shape, invalid) == Ok(r) {
        var c := ParseAddressable(g.keyOk, tag[1]).value;
        RootKindExact(c.kind, r.kind);
        var key := ReadSpelling(g, tag[1], c);
      }
      if SpellsAddress(g, tag[1], r.coordinate, r.kind, r.author) {
        var key, d :| && tag[1] == NatText(r.kind.Number()) + ":" + key + ":" + d && KeyIs(g, key, r.author) && DTag(d)
                      && r.coordinate == NatText(r.kind.Number()) + ":" + r.author + ":" + d;
        SpellingReads(g, tag[1], Coordinate(r.kind.Number(), r.author, d), key);
      }
    }
  }

  /** A canonical kind before the first colon leaves only the key's case to the spelling. */
  lemma ReadSpelling(g: Reader, s: string, c: Coordinate) returns (key: string)
    requires ParseAddressable(g.keyOk, s) == Some(c)
    requires IndexOf(s, ':') < |s| && CanonicalKind(s[..IndexOf(s, ':')]) == Some(c.kind)
    ensures s == NatText(c.kind) + ":" + key + ":" + c.identifier && KeyIs(g, key, c.pubkey) && DTag(c.identifier)
  {
    ParseAddressableExact(g.keyOk, s, c);
    var a, b :| SpelledBy(g.keyOk, s, c, a, b);
    FirstColon(s, |a|);
    assert s[..|a|] == a;
    CanonicalKindExact(a, c.kind);
    key := b;
  }

  lemma SpellingReads(g: Reader, s: string, c: Coordinate, key: string)
    requires s == NatText(c.kind) + ":" + key + ":" + c.identifier && KeyIs(g, key, c.pubkey) && DTag(c.identifier)
    requires c.kind <= U32_MAX
    ensures ParseAddressable(g.keyOk, s) == Some(c)
    ensures IndexOf(s, ':') < |s| && CanonicalKind(s[..IndexOf(s, ':')]) == Some(c.kind)
  {
    SpellingParses(g, s, c, key);
    SpellingToken(s, c.kind, key, c.identifier);
  }

  lemma SpellingParses(g: Reader, s: string, c: Coordinate, key: string)
    requires s == NatText(c.kind) + ":" + key + ":" + c.identifier && KeyIs(g, key, c.pubkey) && DTag(c.identifier)
    requires c.kind <= U32_MAX
    ensures ParseAddressable(g.keyOk, s) == Some(c)
  {
    KeyHasNoColon(key, c.pubkey);
    NoColons(c);
    ParsePrintedU32(c.kind);
    assert SpelledBy(g.keyOk, s, c, NatText(c.kind), key);
    ParseAddressableExact(g.keyOk, s, c);
  }

  lemma SpellingToken(s: string, kind: nat, key: string, d: string)
    requires s == NatText(kind) + ":" + key + ":" + d && kind <= U32_MAX
    ensures IndexOf(s, ':') < |s| && CanonicalKind(s[..IndexOf(s, ':')]) == Some(kind)
  {
    var rest := ":" + key + ":" + d;
    assert s == NatText(kind) + rest;
    TokenOf(s, kind, rest);
  }

  lemma KeyHasNoColon(s: string, key: string)
    requires ParseId(s) == Some(key)
    ensures ':' !in s && HexIdentity(key, 64)
  {
    ParseIdExact(s, key);
  }

  lemma TokenOf(s: string, kind: nat, rest: string)
    requires s == NatText(kind) + rest && rest != "" && rest[0] == ':' && kind <= U32_MAX
    ensures IndexOf(s, ':') < |s| && CanonicalKind(s[..IndexOf(s, ':')]) == Some(kind)
  {
    var text := NatText(kind);
    assert forall i :: 0 <= i < |text| ==> s[i] == text[i] && IsDigit(text[i]);
    FirstColon(s, |text|);
    assert s[..|text|] == text;
    CanonicalKindExact(text, kind);
  }

  // ----- the participants

  predicate KeysDiffer(ps: seq<Participant>) {
    forall i, j :: 0 <= i < j < |ps| ==> ps[i].pubkey != ps[j].pubkey
  }

  /** A tag is the first to name its key. */
  ghost predicate FirstNamed(g: Reader, tags: seq<Tag>, t: nat, p: Participant) {
    && t < |tags| && NamesParticipant(g, tags[t], p)
    && forall u, q :: 0 <= u < t && NamesParticipant(g, tags[u], q) ==> q.pubkey != p.pubkey
  }

  ghost predicate Ascending(at: seq<nat>) {
    forall i, j :: 0 <= i < j < |at| ==> at[i] < at[j]
  }

  /** The participants are those first named at the given places, and no other key is named. */
  ghost predicate ListedAt(g: Reader, tags: seq<Tag>, ps: seq<Participant>, at: seq<nat>) {
    && |at| == |ps| && Ascending(at)
    && (forall i :: 0 <= i < |at| ==> FirstNamed(g, tags, at[i], ps[i]))
    && (forall t, p :: FirstNamed(g, tags, t, p) ==> t in at)
  }

  /** The participants read are each first mention of a valid key, in order. */
  lemma {:induction false} ParticipantsListed(g: Reader, tags: seq<Tag>) returns (at: seq<nat>)
    ensures ListedAt(g, tags, ReadParticipants(g, tags), at)
  {
    at := [];
    if tags != [] {
      var n := |tags| - 1;
      var last := ReadParticipant(g, tags[n]);
      at := ParticipantsListed(g, tags[..n]);
      forall p
        ensures FirstNamed(g, tags, n, p) <==> last == Some(p) && !Knows(ReadParticipants(g, tags[..n]), p.pubkey)
      {
        LastFirst(g, tags, at, p);
      }
      if last.None? || Knows(ReadParticipants(g, tags[..n]), last.value.pubkey) {
        ListedKeep(g, tags, n, ReadParticipants(g, tags[..n]), at);
      } else {
        ListedAppend(g, tags, ReadParticipants(g, tags[..n]), at, last.value);
        at := at + [n];
      }
    }
  }

  lemma ListedKeep(g: Reader, tags: seq<Tag>, n: nat, ps: seq<Participant>, at: seq<nat>)
    requires |tags| == n + 1 && ListedAt(g, tags[..n], ps, at)
    requires forall p :: !FirstNamed(g, tags, n, p)
    ensures ListedAt(g, tags, ps, at)
  {
    FirstInPrefixes(g, tags);
  }

  lemma ListedAppend(g: Reader, tags: seq<Tag>, ps: seq<Participant>, at: seq<nat>, p: Participant)
    requires tags != [] && ListedAt(g, tags[..|tags| - 1], ps, at) && FirstNamed(g, tags, |tags| - 1, p)
    ensures ListedAt(g, tags, ps + [p], at + [|tags| - 1])
  {
    FirstInPrefixes(g, tags);
  }

  lemma FirstInPrefixes(g: Reader, tags: seq<Tag>)
    requires tags != []
    ensures forall t: nat, p | t < |tags| - 1 :: FirstNamed(g, tags, t, p) <==> FirstNamed(g, tags[..|tags| - 1], t, p)
  {
    forall t: nat, p | t < |tags| - 1
      ensures FirstNamed(g, tags, t, p) <==> FirstNamed(g, tags[..|tags| - 1], t, p)
    {
      FirstInPrefix(g, tags, |tags| - 1, t, p);
    }
  }

  lemma FirstInPrefix(g: Reader, tags: seq<Tag>, n: nat, t: nat, p: Participant)
    requires t < n <= |tags|
    ensures FirstNamed(g, tags, t, p) <==> FirstNamed(g, tags[..n], t, p)
  {
    assert forall u :: 0 <= u < n ==> tags[..n][u] == tags[u];
  }

  /** The last tag names its key first exactly when the earlier participants do not have it. */
  lemma {:induction false} LastFirst(g: Reader, tags: seq<Tag>, init: seq<nat>, p: Participant)
    requires tags != [] && ListedAt(g, tags[..|tags| - 1], ReadParticipants(g, tags[..|tags| - 1]), init)
    ensures FirstNamed(g, tags, |tags| - 1, p) <==>
              ReadParticipant(g, tags[|tags| - 1]) == Some(p) && !Knows(ReadParticipants(g, tags[..|tags| - 1]), p.pubkey)
  {
    var n := |tags| - 1;
    var before := ReadParticipants(g, tags[..n]);
    ParticipantExact(g, tags[n], p);
    if Knows(before, p.pubkey) {
      var i :| 0 <= i < |before| && before[i].pubkey == p.pubkey;
      assert FirstNamed(g, tags[..n], init[i], before[i]);
      assert tags[..n][init[i]] == tags[init[i]];
    } else {
      forall u, q | 0 <= u < n && NamesParticipant(g, tags[u], q)
        ensures q.pubkey != p.pubkey
      {
        NamedIsKnown(g, tags[..n], init, u, q);
      }
    }
  }

  lemma {:induction false} NamedIsKnown(g: Reader, tags: seq<Tag>, at: seq<nat>, t: nat, p: Participant)
    requires ListedAt(g, tags, ReadParticipants(g, tags), at) && t < |tags| && NamesParticipant(g, tags[t], p)
    ensures Knows(ReadParticipants(g, tags), p.pubkey)
  {
    if u, q :| 0 <= u < t && NamesParticipant(g, tags[u], q) && q.pubkey == p.pubkey {
      NamedIsKnown(g, tags, at, u, q);
    } else {
      assert FirstNamed(g, tags, t, p);
      var i :| 0 <= i < |at| && at[i] == t;
      assert FirstNamed(g, tags, at[i], ReadParticipants(g, tags)[i]);
    }
  }

  /** The participants are exactly the first mentions of valid keys, in order. */
  lemma ParticipantsExact(g: Reader, tags: seq<Tag>, ps: seq<Participant>)
    ensures ReadParticipants(g, tags) == ps <==> exists at :: ListedAt(g, tags, ps, at)
  {
    var read := ReadParticipants(g, tags);
    var here := ParticipantsListed(g, tags);
    if exists at :: ListedAt(g, tags, ps, at) {
      var at :| ListedAt(g, tags, ps, at);
      SamePlaces(g, tags, ps, at, read, here);
      forall i | 0 <= i < |ps|
        ensures ps[i] == read[i]
      {
        assert FirstNamed(g, tags, at[i], ps[i]) && FirstNamed(g, tags, here[i], read[i]);
        SameParticipant(g, tags[at[i]], ps[i], read[i]);
      }
    }
  }

  lemma SameParticipant(g: Reader, tag: Tag, p: Participant, q: Participant)
    requires NamesParticipant(g, tag, p) && NamesParticipant(g, tag, q)
    ensures p == q
  {
    ParticipantExact(g, tag, p);
    ParticipantExact(g, tag, q);
  }

  lemma SamePlaces(g: Reader, tags: seq<Tag>, a: seq<Participant>, at: seq<nat>, b: seq<Participant>, bt: seq<nat>)
    requires ListedAt(g, tags, a, at) && ListedAt(g, tags, b, bt)
    ensures at == bt
  {
    forall t: nat
      ensures t in at <==> t in bt
    {
      if t in at {
        var i :| 0 <= i < |at| && at[i] == t;
        assert FirstNamed(g, tags, t, a[i]);
      }
      if t in bt {
        var i :| 0 <= i < |bt| && bt[i] == t;
        assert FirstNamed(g, tags, t, b[i]);
      }
    }
    StrictlySortedUnique<nat>(at, bt, NatLess);
  }

  lemma DistinctKeys(g: Reader, tags: seq<Tag>)
    ensures KeysDiffer(ReadParticipants(g, tags))
  {
    var ps := ReadParticipants(g, tags);
    var at := ParticipantsListed(g, tags);
    forall i, j | 0 <= i < j < |ps|
      ensures ps[i].pubkey != ps[j].pubkey
    {
      assert FirstNamed(g, tags, at[i], ps[i]) && FirstNamed(g, tags, at[j], ps[j]);
    }
  }

  // ----- the author of the parent, among the participants

  /** One participant is the author and the others, in order, are mentioned. */
  ghost predicate Divides(ps: seq<Participant>, author: Participant, mentions: seq<Participant>) {
    exists k: nat | k < |ps| :: ps[k] == author && mentions == ps[..k] + ps[k + 1..]
  }

  lemma TakeExact(ps: seq<Participant>, key: string, author: Participant, mentions: seq<Participant>)
    requires KeysDiffer(ps)
    ensures Take(ps, key) == Ok((author, mentions)) <==> author.pubkey == key && Divides(ps, author, mentions)
  {
    if author.pubkey == key && Divides(ps, author, mentions) {
      var k: nat :| k < |ps| && ps[k] == author && mentions == ps[..k] + ps[k + 1..];
      assert IndexOfKey(ps, key) == k;
    }
  }

  lemma DirectAuthorExact(ps: seq<Participant>, expected: string, hint: Option<string>, author: Participant,
                          mentions: seq<Participant>)
    requires KeysDiffer(ps)
    ensures DirectAuthor(ps, expected, hint) == Ok((author, mentions)) <==>
              author.pubkey == expected && (hint.Some? ==> hint.value == expected) && Divides(ps, author, mentions)
  {
    TakeExact(ps, expected, author, mentions);
  }

  lemma NestedAuthorExact(ps: seq<Participant>, hint: Option<string>, author: Participant, mentions: seq<Participant>)
    requires KeysDiffer(ps)
    ensures NestedAuthor(ps, hint) == Ok((author, mentions)) <==>
              (if hint.Some? then author.pubkey == hint.value else mentions == []) && Divides(ps, author, mentions)
  {
    if hint.Some? {
      TakeExact(ps, hint.value, author, mentions);
    } else if |ps| == 1 {
      assert ps[..0] + ps[1..] == [];
      assert ps == [ps[0]];
    }
  }

  // ----- whole comments

  /** The root and what it must agree with. */
  ghost predicate RootNamed(g: Reader, a: Authority, root: InboundRoot) {
    && |a.rootKinds| == |a.rootAuthors| == 1
    && NamesKind(a.rootKinds[0], root.kind.Number()) && NamesParticipant(g, a.rootAuthors[0], root.author)
    && match root
       case EventRootRead(id, _, relay, hint, author) =>
         && |a.eventRoots| == 1 && a.addressRoots == [] && NamesEvent(g, a.eventRoots[0], id, relay, hint)
         && (hint.Some? ==> hint.value == author.pubkey)
       case AddressRootRead(coordinate, kind, relay, author) =>
         && a.eventRoots == [] && |a.addressRoots| == 1
         && NamesAddress(g, a.addressRoots[0], coordinate, kind, author.pubkey, relay)
  }

  /** The position, which on the root repeats it and in a reply names another event. */
  ghost predicate PositionNamed(g: Reader, a: Authority, root: InboundRoot, position: InboundPosition) {
    && |a.parentKinds| == |a.parentEvents| == 1 && NamesKind(a.parentKinds[0], position.kind)
    && match position
       case OnEvent(id, kind, relay, hint, author) =>
         && root.EventRootRead? && kind == root.kind.Number() && id == root.eventId && author.pubkey == root.author.pubkey
         && a.parentAddresses == [] && NamesEvent(g, a.parentEvents[0], id, relay, hint)
         && (hint.Some? ==> hint.value == author.pubkey)
       case OnAddress(coordinate, kind, relay, author, revision, revisionRelay) =>
         && root.AddressRootRead? && kind == root.kind.Number() && coordinate == root.coordinate
         && author.pubkey == root.author.pubkey
         && |a.parentAddresses| == 1 && NamesAddress(g, a.parentAddresses[0], coordinate, root.kind, author.pubkey, relay)
         && 2 <= |a.parentEvents[0]| <= 3 && ParseId(a.parentEvents[0][1]) == Some(revision)
         && NamesRelay(g, a.parentEvents[0], revisionRelay)
       case ReplyTo(id, kind, relay, hint, author) =>
         && kind == 1_111 && (root.EventRootRead? ==> id != root.eventId)
         && a.parentAddresses == [] && NamesEvent(g, a.parentEvents[0], id, relay, hint)
         && (hint.Some? ==> hint.value == author.pubkey)
  }

  /** Where a comment stands and whom it mentions: a reply without an author hint has one participant only. */
  ghost predicate CommentPlaced(g: Reader, a: Authority, p: Projection) {
    && PositionNamed(g, a, p.root, p.position)
    && Divides(ReadParticipants(g, a.participants), p.position.author, p.mentions)
    && (p.position.ReplyTo? && p.position.authorHint.None? ==> p.mentions == [])
  }

  lemma KindExact(tag: Tag, kind: nat)
    requires kind <= U32_MAX
    ensures ReadKind(tag) == Some(kind) <==> NamesKind(tag, kind)
  {
    if |tag| == 2 {
      CanonicalKindExact(tag[1], kind);
    }
  }

  lemma EventRootExact(g: Reader, tag: Tag, kind: RootKind, author: Participant, root: InboundRoot)
    ensures ReadEventRoot(g, tag, kind, author) == Ok(root) <==>
              && root.EventRootRead? && root.kind == kind && root.author == author
              && NamesEvent(g, tag, root.eventId, root.relay, root.authorHint)
              && (root.authorHint.Some? ==> root.authorHint.value == author.pubkey)
  {
    var read := ReadEventReference(g, tag, RootReferenceShape, RootEventIdInvalid);
    if read.Ok? {
      EventReferenceExact(g, tag, RootReferenceShape, RootEventIdInvalid, read.value);
    }
    if root.EventRootRead? {
      EventReferenceExact(g, tag, RootReferenceShape, RootEventIdInvalid,
                          EventReference(root.eventId, root.relay, root.authorHint));
    }
  }

  lemma AddressRootExact(g: Reader, tag: Tag, kind: RootKind, author: Participant, root: InboundRoot)
    ensures ReadAddressRoot(g, tag, kind, author) == Ok(root) <==>
              && root.AddressRootRead? && root.kind == kind && root.author == author
              && NamesAddress(g, tag, root.coordinate, kind, author.pubkey, root.relay)
  {
    var read := ReadAddressReference(g, tag, RootReferenceShape, RootCoordinateInvalid);
    if read.Ok? {
      AddressReferenceExact(g, tag, RootReferenceShape, RootCoordinateInvalid, read.value);
    }
    if root.AddressRootRead? {
      AddressReferenceExact(g, tag, RootReferenceShape, RootCoordinateInvalid,
                            AddressReference(root.coordinate, author.pubkey, kind, root.relay));
    }
  }

  lemma RootExact(g: Reader, a: Authority, root: InboundRoot)
    requires |a.eventRoots| + |a.addressRoots| == 1 && |a.rootKinds| == |a.rootAuthors| == 1
    ensures ReadRoot(g, a) == Ok(root) <==> RootNamed(g, a, root)
  {
    KindNumbers(root.kind);
    KindExact(a.rootKinds[0], root.kind.Number());
    ParticipantExact(g, a.rootAuthors[0], root.author);
    var number, author := ReadKind(a.rootKinds[0]), ReadParticipant(g, a.rootAuthors[0]);
    if number.Some? && ParseRootKind(number.value).Some? && author.Some? {
      var kind := ParseRootKind(number.value).value;
      RootKindExact(number.value, kind);
      RootKindExact(root.kind.Number(), root.kind);
      if a.eventRoots != [] {
        EventRootExact(g, a.eventRoots[0], kind, author.value, root);
      } else {
        AddressRootExact(g, a.addressRoots[0], kind, author.value, root);
      }
    } else if number == Some(root.kind.Number()) {
      RootKindExact(root.kind.Number(), root.kind);
    }
  }

  lemma ParentKindExact(tag: Tag, root: RootKind, kind: nat)
    ensures ReadParentKind(tag, root) == Ok(kind) <==>
              NamesKind(tag, kind) && (kind == root.Number() || kind == 1_111)
  {
    KindNumbers(root);
    if kind <= U32_MAX {
      KindExact(tag, kind);
    }
    RootKindExact(root.Number(), root);
  }

  lemma OnEventExact(g: Reader, a: Authority, root: InboundRoot, kind: nat, ps: seq<Participant>, p: Projection)
    requires root.EventRootRead? && KeysDiffer(ps) && kind == root.kind.Number()
    requires |a.parentKinds| == 1 && NamesKind(a.parentKinds[0], kind)
    ensures ReadOnEvent(g, a, root, kind, ps) == Ok(p) <==>
              && p.root == root && p.position.OnEvent? && PositionNamed(g, a, root, p.position)
              && Divides(ps, p.position.author, p.mentions)
  {
    if |a.parentEvents| == 1 && a.parentAddresses == [] {
      var read := ReadEventReference(g, a.parentEvents[0], ParentReferenceShape, ParentEventIdInvalid);
      if read.Ok? {
        EventReferenceExact(g, a.parentEvents[0], ParentReferenceShape, ParentEventIdInvalid, read.value);
        DirectAuthorExact(ps, root.author.pubkey, read.value.authorHint, p.position.author, p.mentions);
      }
      if p.position.OnEvent? {
        var q := p.position;
        EventReferenceExact(g, a.parentEvents[0], ParentReferenceShape, ParentEventIdInvalid,
                            EventReference(q.eventId, q.relay, q.authorHint));
      }
    }
  }

  lemma ReplyExact(g: Reader, a: Authority, root: InboundRoot, kind: nat, ps: seq<Participant>, p: Projection)
    requires KeysDiffer(ps) && kind == 1_111
    requires |a.parentKinds| == 1 && NamesKind(a.parentKinds[0], kind)
    ensures ReadReply(g, a, root, kind, ps) == Ok(p) <==>
              && p.root == root && p.position.ReplyTo? && PositionNamed(g, a, root, p.position)
              && Divides(ps, p.position.author, p.mentions) && (p.position.authorHint.None? ==> p.mentions == [])
  {
    if |a.parentEvents| == 1 && a.parentAddresses == [] {
      var read := ReadEventReference(g, a.parentEvents[0], ParentReferenceShape, ParentEventIdInvalid);
      if read.Ok? {
        EventReferenceExact(g, a.parentEvents[0], ParentReferenceShape, ParentEventIdInvalid, read.value);
        NestedAuthorExact(ps, read.value.authorHint, p.position.author, p.mentions);
      }
      if p.position.ReplyTo? {
        var q := p.position;
        EventReferenceExact(g, a.parentEvents[0], ParentReferenceShape, ParentEventIdInvalid,
                            EventReference(q.eventId, q.relay, q.authorHint));
      }
    }
  }

  lemma OnAddressExact(g: Reader, a: Authority, root: InboundRoot, kind: nat, ps: seq<Participant>, p: Projection)
    requires root.AddressRootRead? && KeysDiffer(ps) && kind == root.kind.Number()
    requires |a.parentKinds| == 1 && NamesKind(a.parentKinds[0], kind)
    requires RootSpelled(g, root)
    ensures ReadOnAddress(g, a, root, kind, ps) == Ok(p) <==>
              && p.root == root && p.position.OnAddress? && PositionNamed(g, a, root, p.position)
              && Divides(ps, p.position.author, p.mentions)
  {
    if ReadOnAddress(g, a, root, kind, ps) == Ok(p) {
      OnAddressSound(g, a, root, kind, ps, p);
    }
    if p.root == root && p.position.OnAddress? && PositionNamed(g, a, root, p.position)
       && Divides(ps, p.position.author, p.mentions) {
      OnAddressComplete(g, a, root, kind, ps, p);
    }
  }

  lemma OnAddressSound(g: Reader, a: Authority, root: InboundRoot, kind: nat, ps: seq<Participant>, p: Projection)
    requires root.AddressRootRead? && KeysDiffer(ps) && kind == root.kind.Number()
    requires |a.parentKinds| == 1 && NamesKind(a.parentKinds[0], kind) && RootSpelled(g, root)
    requires ReadOnAddress(g, a, root, kind, ps) == Ok(p)
    ensures p.root == root && p.position.OnAddress? && PositionNamed(g, a, root, p.position)
    ensures Divides(ps, p.position.author, p.mentions)
  {
    var tag := a.parentAddresses[0];
    var parent := ReadAddressReference(g, tag, ParentReferenceShape, ParentCoordinateInvalid).value;
    AddressReferenceExact(g, tag, ParentReferenceShape, ParentCoordinateInvalid, parent);
    SameCoordinate(g, tag[1], root, parent);
    DirectAuthorExact(ps, root.author.pubkey, None, p.position.author, p.mentions);
    RelayExact(g, a.parentEvents[0], p.position.revisionRelay);
  }

  lemma OnAddressComplete(g: Reader, a: Authority, root: InboundRoot, kind: nat, ps: seq<Participant>, p: Projection)
    requires root.AddressRootRead? && KeysDiffer(ps) && kind == root.kind.Number()
    requires p.root == root && p.position.OnAddress? && PositionNamed(g, a, root, p.position)
    requires Divides(ps, p.position.author, p.mentions)
    ensures ReadOnAddress(g, a, root, kind, ps) == Ok(p)
  {
    var q := p.position;
    AddressReferenceExact(g, a.parentAddresses[0], ParentReferenceShape, ParentCoordinateInvalid,
                          AddressReference(q.coordinate, root.author.pubkey, root.kind, q.relay));
    RelayExact(g, a.parentEvents[0], q.revisionRelay);
    DirectAuthorExact(ps, root.author.pubkey, None, q.author, p.mentions);
  }

  /** The coordinate of an address root is one of its kind and author. */
  ghost predicate RootSpelled(g: Reader, root: InboundRoot) {
    root.AddressRootRead? ==> exists s :: SpellsAddress(g, s, root.coordinate, root.kind, root.author.pubkey)
  }

  /** Equal coordinates have one kind and one author. */
  lemma SameCoordinate(g: Reader, s: string, root: InboundRoot, r: AddressReference)
    requires root.AddressRootRead? && RootSpelled(g, root)
    requires SpellsAddress(g, s, r.coordinate, r.kind, r.author) && r.coordinate == root.coordinate
    ensures r.kind == root.kind && r.author == root.author.pubkey
  {
    var t :| SpellsAddress(g, t, root.coordinate, root.kind, root.author.pubkey);
    var key, d :| s == NatText(r.kind.Number()) + ":" + key + ":" + d && KeyIs(g, key, r.author) && DTag(d)
                  && r.coordinate == NatText(r.kind.Number()) + ":" + r.author + ":" + d;
    var key', d' :| && t == NatText(root.kind.Number()) + ":" + key' + ":" + d' && KeyIs(g, key', root.author.pubkey) && DTag(d')
                    && root.coordinate == NatText(root.kind.Number()) + ":" + root.author.pubkey + ":" + d';
    TextDetermines(Coordinate(r.kind.Number(), r.author, d), Coordinate(root.kind.Number(), root.author.pubkey, d'));
    KindNumbers(r.kind);
    KindNumbers(root.kind);
  }

  lemma PositionExact(g: Reader, a: Authority, root: InboundRoot, kind: nat, p: Projection)
    requires kind == root.kind.Number() || kind == 1_111
    requires |a.parentKinds| == 1 && NamesKind(a.parentKinds[0], kind) && RootSpelled(g, root)
    ensures ReadPosition(g, a, root, kind) == Ok(p) <==> p.root == root && p.position.kind == kind && CommentPlaced(g, a, p)
  {
    KindNumbers(root.kind);
    var ps := ReadParticipants(g, a.participants);
    DistinctKeys(g, a.participants);
    if kind != root.kind.Number() {
      ReplyExact(g, a, root, kind, ps, p);
    } else if root.EventRootRead? {
      OnEventExact(g, a, root, kind, ps, p);
    } else {
      OnAddressExact(g, a, root, kind, ps, p);
    }
  }

  lemma AuthorityExact(g: Reader, a: Authority, p: Projection)
    ensures ReadAuthority(g, a) == Ok(p) <==> RootNamed(g, a, p.root) && CommentPlaced(g, a, p)
  {
    KindNumbers(p.root.kind);
    if |a.eventRoots| + |a.addressRoots| == 1 && |a.rootKinds| == |a.rootAuthors| == |a.parentKinds| == 1 {
      RootExact(g, a, p.root);
      var root := ReadRoot(g, a);
      if root.Ok? {
        RootExact(g, a, root.value);
        assert RootSpelled(g, root.value);
        ParentKindExact(a.parentKinds[0], root.value.kind, p.position.kind);
        var kind := ReadParentKind(a.parentKinds[0], root.value.kind);
        if kind.Ok? {
          ParentKindExact(a.parentKinds[0], root.value.kind, kind.value);
          PositionExact(g, a, root.value, kind.value, p);
        }
      }
    }
  }

  /** The tags of each name, and what the comment they name is. */
  ghost predicate CommentNamed(g: Reader, tags: seq<Tag>, p: Projection) {
    var a := Authority(Matching(tags, "E"), Matching(tags, "A"), Matching(tags, "K"), Matching(tags, "P"),
                       Matching(tags, "e"), Matching(tags, "a"), Matching(tags, "k"), Matching(tags, "p"));
    RootNamed(g, a, p.root) && CommentPlaced(g, a, p)
  }

  lemma NamedExactly(g: Reader, tags: seq<Tag>, p: Projection)
    ensures ReadAuthority(g, AuthorityOf(tags)) == Ok(p) <==> CommentNamed(g, tags, p)
  {
    AuthorityExact(g, AuthorityOf(tags), p);
  }

  lemma ProjectSteps(g: Reader, kind: nat, tags: seq<Tag>, content: string, createdAt: U64,
                     read: Result<Projection, ProjectionError>, p: Projection)
    requires read == ReadAuthority(g, AuthorityOf(tags))
    ensures Project(g, kind, tags, content, createdAt) == Ok(p) <==>
              && kind == 1_111 && !Blank(content) && Utf8Len(content) <= 131_072
              && WithinBudgets(FIXED_BYTES, tags, content, |NatText(createdAt)|)
              && Matching(tags, "I") == [] && Matching(tags, "i") == [] && read == Ok(p)
  {
  }

  /** A received comment is accepted exactly when its kind, content and budgets fit, it has no identifier forms, and
      its tags name its root, its position and its participants; what is read is what they name. */
  lemma ProjectedExactly(g: Reader, kind: nat, tags: seq<Tag>, content: string, createdAt: U64, p: Projection)
    ensures Project(g, kind, tags, content, createdAt) == Ok(p) <==>
              && kind == 1_111 && !Blank(content) && Utf8Len(content) <= 131_072
              && WithinBudgets(FIXED_BYTES, tags, content, |NatText(createdAt)|)
              && Matching(tags, "I") == [] && Matching(tags, "i") == [] && CommentNamed(g, tags, p)
  {
    NamedExactly(g, tags, p);
    ProjectSteps(g, kind, tags, content, createdAt, ReadAuthority(g, AuthorityOf(tags)), p);
  }

  lemma MentionsDiffer(ps: seq<Participant>, author: Participant, mentions: seq<Participant>)
    requires KeysDiffer(ps) && Divides(ps, author, mentions)
    ensures !Knows(mentions, author.pubkey) && KeysDiffer(mentions)
  {
    var k: nat :| k < |ps| && ps[k] == author && mentions == ps[..k] + ps[k + 1..];
    forall i | 0 <= i < |mentions|
      ensures mentions[i] == ps[if i < k then i else i + 1] && mentions[i].pubkey != author.pubkey
    {
      assert mentions[i] == ps[if i < k then i else i + 1];
    }
  }

  /** A comment on the root repeats the root and its author; a reply answers another event. */
  predicate Consistent(root: InboundRoot, position: InboundPosition) {
    match position
    case OnEvent(id, number, _, _, author) =>
      root.EventRootRead? && (id, number, author.pubkey) == (root.eventId, root.kind.Number(), root.author.pubkey)
    case OnAddress(coordinate, number, _, author, _, _) =>
      root.AddressRootRead? && (coordinate, number, author.pubkey) == (root.coordinate, root.kind.Number(), root.author.pubkey)
    case ReplyTo(id, number, _, _, _) => number == 1_111 && (root.EventRootRead? ==> id != root.eventId)
  }

  /** Whatever its tags say, every accepted comment stands consistently to its root, and its parent's author is
      mentioned nowhere else. */
  lemma ReceivedIsConsistent(g: Reader, kind: nat, tags: seq<Tag>, content: string, createdAt: U64, p: Projection)
    requires Project(g, kind, tags, content, createdAt) == Ok(p)
    ensures Consistent(p.root, p.position)
    ensures !Knows(p.mentions, p.position.author.pubkey) && KeysDiffer(p.mentions)
  {
    ProjectSteps(g, kind, tags, content, createdAt, ReadAuthority(g, AuthorityOf(tags)), p);
    PlacedIsConsistent(g, AuthorityOf(tags), p);
  }

  lemma PlacedIsConsistent(g: Reader, a: Authority, p: Projection)
    requires ReadAuthority(g, a) == Ok(p)
    ensures Consistent(p.root, p.position)
    ensures !Knows(p.mentions, p.position.author.pubkey) && KeysDiffer(p.mentions)
  {
    AuthorityExact(g, a, p);
    DistinctKeys(g, a.participants);
    MentionsDiffer(ReadParticipants(g, a.participants), p.position.author, p.mentions);
  }

  // ----- the tags of an authored comment, name by name

  /** What the references of a comment are known to be from their own parsers. */
  predicate KnownRelay(g: Reader, relay: Option<string>) {
    relay.Some? ==> relay.value != "" && g.relayOk(relay.value)
  }

  function RootCoordinate(r: AddressRoot, identifier: string): Coordinate {
    Coordinate(r.kind.Number(), r.author, identifier)
  }

  ghost predicate KnownRoot(g: Reader, root: Root) {
    && g.keyOk(root.Author()) && KnownRelay(g, root.Relay())
    && (root.RootAddress? ==> exists d :: DTag(d) && root.address.coordinate == CoordinateText(RootCoordinate(root.address, d)))
  }

  predicate KnownPosition(g: Reader, root: Root, position: Position) {
    position.Nested? ==>
      && g.keyOk(position.parent.author) && KnownRelay(g, position.parent.relay)
      && !(root.RootEvent? && root.event.eventId == position.parent.eventId)
  }

  function RootParts(root: Root): seq<Part> {
    [ Part("E", if root.RootEvent?
                then [["E", root.event.eventId, RelayOrEmpty(root.event.relay), root.event.author]] else []),
      Part("A", if root.RootAddress?
                then [OptionalRelayTag("A", root.address.coordinate, root.address.relay)] else []),
      Part("K", [["K", NatText(root.Kind().Number())]]),
      Part("P", [OptionalRelayTag("P", root.Author(), root.Relay())])]
  }

  function ParentParts(root: Root, position: Position): seq<Part>
    requires Compatible(root, position)
  {
    match position
    case TopLevelEvent =>
      var r := root.event;
      [ Part("a", []), Part("e", [["e", r.eventId, RelayOrEmpty(r.relay), r.author]]),
        Part("k", [["k", NatText(r.kind.Number())]]), Part("p", [OptionalRelayTag("p", r.author, r.relay)])]
    case TopLevelAddress(revision) =>
      var r := root.address;
      [ Part("a", [OptionalRelayTag("a", r.coordinate, r.relay)]),
        Part("e", [OptionalRelayTag("e", revision, r.relay)]),
        Part("k", [["k", NatText(r.kind.Number())]]), Part("p", [OptionalRelayTag("p", r.author, r.relay)])]
    case Nested(p) =>
      [ Part("a", []), Part("e", [["e", p.eventId, RelayOrEmpty(p.relay), p.author]]),
        Part("k", [["k", NatText(1_111)]]), Part("p", [OptionalRelayTag("p", p.author, p.relay)])]
  }

  function CommentParts(root: Root, position: Position): seq<Part>
    requires Compatible(root, position)
  {
    RootParts(root) + ParentParts(root, position)
  }

  function NameSlot(name: string): nat {
    if |name| != 1 then 8
    else
      match name[0]
      case 'E' => 0
      case 'A' => 1
      case 'K' => 2
      case 'P' => 3
      case 'a' => 4
      case 'e' => 5
      case 'k' => 6
      case 'p' => 7
      case _ => 8
  }

  lemma RootPartsPlaced(root: Root, i: nat)
    requires i < 4
    ensures var part := RootParts(root)[i]; NameSlot(part.key) == i && AllKeyed(part.tags, part.key)
  {
  }

  lemma ParentPartsPlaced(root: Root, position: Position, i: nat)
    requires Compatible(root, position) && i < 4
    ensures |ParentParts(root, position)| == 4
    ensures var part := ParentParts(root, position)[i]; NameSlot(part.key) == i + 4 && AllKeyed(part.tags, part.key)
  {
  }

  lemma CommentInParts(root: Root, position: Position)
    requires Compatible(root, position)
    ensures CommentTags(root, position) == Flatten(CommentParts(root, position))
  {
    var r, p := RootParts(root), ParentParts(root, position);
    FlattenConcat(r, p);
    FlattenFour(r[0], r[1], r[2], r[3]);
    FlattenFour(p[0], p[1], p[2], p[3]);
    RootTagsInParts(root);
    ParentTagsInParts(root, position);
  }

  lemma RootTagsInParts(root: Root)
    ensures var r := RootParts(root); RootTags(root) == r[0].tags + r[1].tags + r[2].tags + r[3].tags
  {
  }

  lemma ParentTagsInParts(root: Root, position: Position)
    requires Compatible(root, position)
    ensures var p := ParentParts(root, position);
            |p| == 4 && PositionTags(root, position) == p[0].tags + p[1].tags + p[2].tags + p[3].tags
  {
  }

  lemma CommentPartsKeyed(root: Root, position: Position)
    requires Compatible(root, position)
    ensures var parts := CommentParts(root, position);
            && |parts| == 8 && PartsKeyed(parts) && KeysDistinct(parts)
            && forall i :: 0 <= i < 8 ==> NameSlot(parts[i].key) == i
  {
    var parts := CommentParts(root, position);
    ParentPartsPlaced(root, position, 0);
    forall i | 0 <= i < 8
      ensures NameSlot(parts[i].key) == i && AllKeyed(parts[i].tags, parts[i].key)
    {
      if i < 4 {
        RootPartsPlaced(root, i);
      } else {
        ParentPartsPlaced(root, position, i - 4);
      }
    }
  }

  /** Each name selects exactly the tags of its field, and the two identifier forms are never written. */
  lemma CommentTagsByName(root: Root, position: Position)
    requires Compatible(root, position)
    ensures var tags, parts := CommentTags(root, position), CommentParts(root, position);
            Carries(tags, parts) && Matching(tags, "I") == [] && Matching(tags, "i") == []
  {
    var parts := CommentParts(root, position);
    CommentPartsKeyed(root, position);
    CommentInParts(root, position);
    FlattenCarries(parts);
    AbsentFromParts(parts, "I");
    AbsentFromParts(parts, "i");
  }

  lemma CommentTagOrder(root: Root, position: Position)
    requires Compatible(root, position)
    ensures CommentTags(root, position) == Flatten(CommentParts(root, position))
    ensures InOrder(CommentParts(root, position), ["E", "A", "K", "P", "a", "e", "k", "p"])
  {
    CommentInParts(root, position);
    var r, p := RootParts(root), ParentParts(root, position);
    assert InOrder(r, ["E", "A", "K", "P"]);
    assert InOrder(p, ["a", "e", "k", "p"]);
    InOrderConcat(r, ["E", "A", "K", "P"], p, ["a", "e", "k", "p"]);
  }

  // ----- authored comments are read back as themselves

  function RootRead(root: Root): InboundRoot {
    match root
    case RootEvent(r) => EventRootRead(r.eventId, r.kind, r.relay, Some(r.author), Participant(r.author, r.relay))
    case RootAddress(r) => AddressRootRead(r.coordinate, r.kind, r.relay, Participant(r.author, r.relay))
  }

  function PositionRead(root: Root, position: Position): InboundPosition
    requires Compatible(root, position)
  {
    match position
    case TopLevelEvent =>
      var r := root.event;
      OnEvent(r.eventId, r.kind.Number(), r.relay, Some(r.author), Participant(r.author, r.relay))
    case TopLevelAddress(revision) =>
      var r := root.address;
      OnAddress(r.coordinate, r.kind.Number(), r.relay, Participant(r.author, r.relay), revision, r.relay)
    case Nested(p) => ReplyTo(p.eventId, 1_111, p.relay, Some(p.author), Participant(p.author, p.relay))
  }

  lemma ParticipantRead(g: Reader, name: string, key: string, relay: Option<string>)
    requires HexIdentity(key, 64) && g.keyOk(key) && KnownRelay(g, relay)
    ensures NamesParticipant(g, OptionalRelayTag(name, key, relay), Participant(key, relay))
    ensures ReadParticipants(g, [OptionalRelayTag(name, key, relay)]) == [Participant(key, relay)]
  {
    ParseCanonicalId(key);
    var tags := [OptionalRelayTag(name, key, relay)];
    ParticipantExact(g, tags[0], Participant(key, relay));
    assert tags[..0] == [];
  }

  lemma EventRead(g: Reader, name: string, id: string, relay: Option<string>, author: string)
    requires HexIdentity(id, 64) && HexIdentity(author, 64) && g.keyOk(author) && KnownRelay(g, relay)
    ensures NamesEvent(g, [name, id, RelayOrEmpty(relay), author], id, relay, Some(author))
  {
    ParseCanonicalId(id);
    ParseCanonicalId(author);
  }

  lemma AddressRead(g: Reader, name: string, r: AddressRoot, d: string)
    requires g.keyOk(r.author) && KnownRelay(g, r.relay)
    requires DTag(d) && r.coordinate == CoordinateText(RootCoordinate(r, d))
    ensures NamesAddress(g, OptionalRelayTag(name, r.coordinate, r.relay), r.coordinate, r.kind, r.author, r.relay)
  {
    ParseCanonicalId(r.author);
    assert KeyIs(g, r.author, r.author);
  }

  function AuthorityFor(root: Root, position: Position): Authority
    requires Compatible(root, position)
  {
    var r, p := RootParts(root), ParentParts(root, position);
    Authority(r[0].tags, r[1].tags, r[2].tags, r[3].tags, p[1].tags, p[0].tags, p[2].tags, p[3].tags)
  }

  lemma AuthorityCarried(tags: seq<Tag>, root: Root, position: Position)
    requires Compatible(root, position) && Carries(tags, CommentParts(root, position))
    ensures AuthorityOf(tags) == AuthorityFor(root, position)
  {
    var parts := CommentParts(root, position);
    assert |parts| == 8;
    assert parts[0].key == "E" && parts[1].key == "A" && parts[2].key == "K" && parts[3].key == "P";
    assert parts[4].key == "a" && parts[5].key == "e" && parts[6].key == "k" && parts[7].key == "p";
  }

  lemma RootIsNamed(g: Reader, root: Root, position: Position)
    requires Compatible(root, position) && KnownRoot(g, root)
    ensures RootNamed(g, AuthorityFor(root, position), RootRead(root))
  {
    ParticipantRead(g, "P", root.Author(), root.Relay());
    if root.RootEvent? {
      EventRead(g, "E", root.event.eventId, root.event.relay, root.event.author);
    } else {
      var d :| DTag(d) && root.address.coordinate == CoordinateText(RootCoordinate(root.address, d));
      AddressRead(g, "A", root.address, d);
    }
  }

  lemma PositionIsNamed(g: Reader, root: Root, position: Position)
    requires Compatible(root, position) && KnownRoot(g, root) && KnownPosition(g, root, position)
    ensures PositionNamed(g, AuthorityFor(root, position), RootRead(root), PositionRead(root, position))
  {
    match position
    case TopLevelEvent => EventRead(g, "e", root.event.eventId, root.event.relay, root.event.author);
    case TopLevelAddress(revision) =>
      var d :| DTag(d) && root.address.coordinate == CoordinateText(RootCoordinate(root.address, d));
      AddressRead(g, "a", root.address, d);
      ParseCanonicalId(revision);
    case Nested(parent) => EventRead(g, "e", parent.eventId, parent.relay, parent.author);
  }

  lemma ReadAuthored(g: Reader, root: Root, position: Position)
    requires Compatible(root, position) && KnownRoot(g, root) && KnownPosition(g, root, position)
    ensures ReadAuthority(g, AuthorityFor(root, position))
         == Ok(Projection(RootRead(root), PositionRead(root, position), []))
  {
    var a, p := AuthorityFor(root, position), Projection(RootRead(root), PositionRead(root, position), []);
    RootIsNamed(g, root, position);
    PositionIsNamed(g, root, position);
    OnlyParticipant(g, root, position);
    AuthorityExact(g, a, p);
  }

  /** The author of the parent is the one participant. */
  lemma OnlyParticipant(g: Reader, root: Root, position: Position)
    requires Compatible(root, position) && KnownRoot(g, root) && KnownPosition(g, root, position)
    ensures Divides(ReadParticipants(g, AuthorityFor(root, position).participants), PositionRead(root, position).author, [])
  {
    var author := PositionRead(root, position).author;
    ParticipantRead(g, "p", author.pubkey, author.relay);
    assert [author][..0] + [author][1..] == [];
  }

  /** A received list that carries a comment's tags, in any order across names and among any others, is read as that
      comment: the same root, parent, kinds, authors and relays. */
  lemma CarriedProjects(g: Reader, root: Root, position: Position, tags: seq<Tag>, content: string, createdAt: U64)
    requires Compatible(root, position) && KnownRoot(g, root) && KnownPosition(g, root, position)
    requires Carries(tags, CommentParts(root, position)) && Matching(tags, "I") == [] && Matching(tags, "i") == []
    requires !Blank(content) && Utf8Len(content) <= CONTENT_MAX_BYTES
    requires WithinBudgets(FIXED_BYTES, tags, content, |NatText(createdAt)|)
    ensures Project(g, 1_111, tags, content, createdAt)
         == Ok(Projection(RootRead(root), PositionRead(root, position), []))
  {
    AuthorityCarried(tags, root, position);
    ReadAuthored(g, root, position);
  }

  // ----- authored comments fit the reader's budgets

  lemma RootTagsFit(root: Root)
    ensures BoundedTags(RootTags(root))
  {
    NamesFit();
    NumberFits(root.Kind().Number());
    HexFits(root.Author());
    if root.RootEvent? {
      HexFits(root.event.eventId);
    }
  }

  lemma PositionTagsFit(root: Root, position: Position)
    requires Compatible(root, position)
    ensures BoundedTags(PositionTags(root, position))
  {
    NamesFit();
    NumberFits(root.Kind().Number());
    NumberFits(KIND_COMMENT);
    HexFits(root.Author());
    match position
    case TopLevelEvent => HexFits(root.event.eventId);
    case TopLevelAddress(revision) => HexFits(revision);
    case Nested(parent) =>
      HexFits(parent.eventId);
      HexFits(parent.author);
  }

  lemma AuthoredFits(content: string, root: Root, position: Position, createdAt: U64)
    requires Compatible(root, position) && Authored(content, root, position).Ok?
    ensures WithinBudgets(FIXED_BYTES, CommentTags(root, position), content, |NatText(createdAt)|)
  {
    var tags := CommentTags(root, position);
    RootTagsFit(root);
    PositionTagsFit(root, position);
    SmallCounts(root, position);
    HandCountExact(root, position);
    TagsBound(tags);
    TimestampBound(createdAt);
  }

  lemma TimestampBound(createdAt: U64)
    ensures |NatText(createdAt)| <= 20
  {
    TimestampDigits(createdAt);
  }

  /** Every comment the constructors accept is, written out and received at any time, read as itself. */
  lemma AuthoredProjects(g: Reader, content: string, root: Root, position: Position, createdAt: U64)
    requires Compatible(root, position) && KnownRoot(g, root) && KnownPosition(g, root, position)
    requires Authored(content, root, position).Ok?
    ensures Project(g, 1_111, CommentTags(root, position), content, createdAt)
         == Ok(Projection(RootRead(root), PositionRead(root, position), []))
  {
    AuthoredFits(content, root, position, createdAt);
    CommentTagsByName(root, position);
    CarriedProjects(g, root, position, CommentTags(root, position), content, createdAt);
  }

  /** Two comments with the same tags answer the same root at the same position. */
  lemma TagsDetermineComment(g: Reader, root: Root, position: Position, root': Root, position': Position)
    requires Compatible(root, position) && KnownRoot(g, root) && KnownPosition(g, root, position)
    requires Compatible(root', position') && KnownRoot(g, root') && KnownPosition(g, root', position')
    requires CommentTags(root, position) == CommentTags(root', position')
    ensures root == root' && position == position'
  {
    CommentTagsByName(root, position);
    CommentTagsByName(root', position');
    AuthorityCarried(CommentTags(root, position), root, position);
    AuthorityCarried(CommentTags(root', position'), root', position');
    ReadAuthored(g, root, position);
    ReadAuthored(g, root', position');
    ReadDetermines(root, position, root', position');
  }

  lemma ReadDetermines(root: Root, position: Position, root': Root, position': Position)
    requires Compatible(root, position) && Compatible(root', position')
    requires RootRead(root) == RootRead(root') && PositionRead(root, position) == PositionRead(root', position')
    ensures root == root' && position == position'
  {
  }
}
