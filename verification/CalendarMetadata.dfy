/** The metadata that calendar events share, as the authoring API checks it and as it is read and
    admitted: crates/event/src/calendar.rs and crates/event_codec/src/calendar/decode.rs. */
module CalendarMetadata {
  import opened CalendarTags
  import opened Coordinates
  import opened Digits
  import opened Json
  import opened Results
  import opened Tags
  import opened Text

  const MAX_PARTICIPANTS: nat := TAG_MAX_COUNT - 16

  // ----- texts

  /** `calendar_tag_text_is_valid`. */
  predicate TagText(value: string) {
    && !Blank(value)
    && (forall i :: 0 <= i < |value| ==> !Control(value[i]))
    && Utf8Len(value) <= TAG_ELEMENT_MAX_BYTES
  }

  predicate CanonicalText(value: string) {
    TagText(value) && Trimmed(value)
  }

  /** A text for a tag shows something, holds no control character and fits an element. */
  lemma TagTextExact(value: string)
    ensures TagText(value) <==>
              && (exists i :: 0 <= i < |value| && !WhiteSpace(value[i]))
              && (forall c: char | c in value :: 32 <= c as int && !(127 <= c as int < 160))
              && Utf8Len(value) <= 4_096
    ensures CanonicalText(value) <==>
              && value != "" && !WhiteSpace(value[0]) && !WhiteSpace(value[|value| - 1])
              && (forall c: char | c in value :: 32 <= c as int && !(127 <= c as int < 160))
              && Utf8Len(value) <= 4_096
  {
    assert (forall i :: 0 <= i < |value| ==> !Control(value[i])) <==>
           (forall c: char | c in value :: 32 <= c as int && !(127 <= c as int < 160)) by {
      forall i | 0 <= i < |value|
        ensures value[i] in value
      {
      }
    }
  }

  /** The geohash alphabet: digits and letters without a, i, l and o. */
  predicate GeohashLetter(c: char) {
    IsDigit(c) || ('b' <= c <= 'z' && c != 'i' && c != 'l' && c != 'o')
  }

  lemma GeohashAlphabet(c: char)
    ensures GeohashLetter(c) <==> c in "0123456789bcdefghjkmnpqrstuvwxyz"
  {
  }

  predicate Upper(c: char) {
    'A' <= c <= 'Z'
  }

  predicate Geohash(value: string) {
    && value != "" && Utf8Len(value) <= 12
    && forall i :: 0 <= i < |value| ==>
         GeohashLetter(if Upper(value[i]) then (value[i] as int + 32) as char else value[i])
  }

  predicate CanonicalGeohash(value: string) {
    Geohash(value) && forall i :: 0 <= i < |value| ==> !Upper(value[i])
  }

  /** A geohash is 1 to 12 letters of its alphabet in either case, and canonical in lower case. */
  lemma GeohashExact(value: string)
    ensures Geohash(value) <==>
              1 <= |value| <= 12 && forall c: char | c in value :: c in "0123456789bcdefghjkmnpqrstuvwxyz"
                                                                 || c in "BCDEFGHJKMNPQRSTUVWXYZ"
    ensures CanonicalGeohash(value) <==>
              1 <= |value| <= 12 && forall c: char | c in value :: c in "0123456789bcdefghjkmnpqrstuvwxyz"
  {
    FourBytesEach(value);
    forall c: char | c in value
      ensures GeohashLetter(if Upper(c) then (c as int + 32) as char else c) <==>
                c in "0123456789bcdefghjkmnpqrstuvwxyz" || c in "BCDEFGHJKMNPQRSTUVWXYZ"
      ensures c in "0123456789bcdefghjkmnpqrstuvwxyz" ==> !Upper(c)
      ensures c in "BCDEFGHJKMNPQRSTUVWXYZ" ==> Upper(c)
    {
      GeohashCase(c);
    }
    if Geohash(value) || forall c: char | c in value :: c in "0123456789bcdefghjkmnpqrstuvwxyz" || c in "BCDEFGHJKMNPQRSTUVWXYZ" {
      assert forall i :: 0 <= i < |value| ==> value[i] in value;
      AsciiLength(value);
    }
  }

  lemma GeohashCase(c: char)
    ensures GeohashLetter(if Upper(c) then (c as int + 32) as char else c) <==>
              c in "0123456789bcdefghjkmnpqrstuvwxyz" || c in "BCDEFGHJKMNPQRSTUVWXYZ"
    ensures c in "0123456789bcdefghjkmnpqrstuvwxyz" ==> !Upper(c) && c as int < 128
    ensures c in "BCDEFGHJKMNPQRSTUVWXYZ" ==> Upper(c) && c as int < 128
  {
    GeohashAlphabet(c);
    UpperAlphabet(c);
  }

  lemma UpperAlphabet(c: char)
    ensures c in "BCDEFGHJKMNPQRSTUVWXYZ" <==> 'B' <= c <= 'Z' && c != 'I' && c != 'L' && c != 'O'
  {
  }

  /** Grammars decided by the URL, curve and coordinate parsers. */
  datatype Grammar = Grammar(
    key: string -> bool,
    relay: string -> bool,
    strictRelay: string -> bool,
    calendar: string -> bool,
    strictCalendar: string -> bool,
    url: string -> bool,
    blob: string -> bool)

  predicate Relay(g: Grammar, value: string) {
    value != "" && g.relay(value)
  }

  /** `CalendarUri::parse`. */
  predicate Uri(g: Grammar, value: string) {
    value != "" && Visible(value) && Utf8Len(value) <= TAG_ELEMENT_MAX_BYTES && g.url(value)
  }

  function UriIn(g: Grammar): string -> bool {
    (value: string) => Uri(g, value)
  }

  // ----- reading tags

  datatype ParseError =
    | MissingTag(key: string)
    | DuplicateTag(key: string)
    | InvalidTag(key: string)
    | InvalidNumber(key: string)
    | InvalidKind(got: nat)
    | InvalidEnvelope

  function OptionalValue(tags: seq<Tag>, key: string): Result<Option<string>, ParseError> {
    var matching := Matching(tags, key);
    if matching == [] then Ok(None)
    else if |matching| > 1 then Err(DuplicateTag(key))
    else if |matching[0]| != 2 || matching[0][1] == "" then Err(InvalidTag(key))
    else Ok(Some(matching[0][1]))
  }

  function RequiredValue(tags: seq<Tag>, key: string): Result<string, ParseError> {
    var value :- OptionalValue(tags, key);
    if value.None? then Err(MissingTag(key)) else Ok(value.value)
  }

  /** The second elements of well-formed pairs, or the first malformed one. */
  function Values(matching: seq<Tag>, key: string): Result<seq<string>, ParseError> {
    if matching == [] then Ok([])
    else if |matching[0]| != 2 || matching[0][1] == "" then Err(InvalidTag(key))
    else
      var rest :- Values(matching[1..], key);
      Ok([matching[0][1]] + rest)
  }

  function OptionalWhere(tags: seq<Tag>, key: string, admits: string -> bool): Result<Option<string>, ParseError> {
    var value :- OptionalValue(tags, key);
    if value.Some? && !admits(value.value) then Err(InvalidTag(key)) else Ok(value)
  }

  function RequiredWhere(tags: seq<Tag>, key: string, admits: string -> bool): Result<string, ParseError> {
    var value :- RequiredValue(tags, key);
    if admits(value) then Ok(value) else Err(InvalidTag(key))
  }

  predicate AllAdmit(values: seq<string>, admits: string -> bool) {
    forall i :: 0 <= i < |values| ==> admits(values[i])
  }

  function RepeatedWhere(tags: seq<Tag>, key: string, admits: string -> bool): Result<seq<string>, ParseError> {
    var values :- Values(Matching(tags, key), key);
    if AllAdmit(values, admits) then Ok(values) else Err(InvalidTag(key))
  }

  /** One participant: key, then relay, then role; an empty relay is allowed only before a role. */
  function ReadParticipant(g: Grammar, tag: Tag): Option<Participant> {
    if !(2 <= |tag| <= 4) || !g.key(tag[1]) || (|tag| == 3 && tag[2] == "") then None
    else
      var relay := if |tag| > 2 && tag[2] != "" then Some(tag[2]) else None;
      var role := if |tag| > 3 then Some(tag[3]) else None;
      if (relay.Some? && !Relay(g, relay.value)) || (role.Some? && !TagText(role.value)) then None
      else Some(Participant(tag[1], relay, role))
  }

  function ReadRequest(g: Grammar, tag: Tag): Option<Request> {
    if !(2 <= |tag| <= 3) || tag[1] == "" || (|tag| == 3 && tag[2] == "") then None
    else
      var relay := if |tag| > 2 then Some(tag[2]) else None;
      if !g.calendar(tag[1]) || (relay.Some? && !Relay(g, relay.value)) then None
      else Some(Request(tag[1], relay))
  }

  function ReadParticipants(g: Grammar, tags: seq<Tag>): Result<seq<Participant>, ParseError> {
    if tags == [] then Ok([])
    else if ReadParticipant(g, tags[0]).None? then Err(InvalidTag("p"))
    else
      var rest :- ReadParticipants(g, tags[1..]);
      Ok([ReadParticipant(g, tags[0]).value] + rest)
  }

  /** What a successful reading of the rest adds to what was read before it. */
  function Following<T>(read: seq<T>, rest: Result<seq<T>, ParseError>): (r: Result<seq<T>, ParseError>)
    ensures read == [] ==> r == rest
    ensures rest == Ok([]) ==> r == Ok(read)
  {
    if rest.Err? then rest
    else
      assert [] + rest.value == rest.value && read + [] == read;
      Ok(read + rest.value)
  }

  lemma FollowingOneMore<T>(read: seq<T>, next: T, rest: Result<seq<T>, ParseError>)
    ensures Following(read, Following([next], rest)) == Following(read + [next], rest)
  {
    if rest.Ok? {
      assert read + ([next] + rest.value) == read + [next] + rest.value;
    }
  }

  method CollectParticipants(g: Grammar, tags: seq<Tag>) returns (r: Result<seq<Participant>, ParseError>)
    ensures r == ReadParticipants(g, Matching(tags, "p"))
  {
    var matching := Matching(tags, "p");
    var participants: seq<Participant> := [];
    assert matching[0..] == matching;
    for k := 0 to |matching|
      invariant ReadParticipants(g, matching) == Following(participants, ReadParticipants(g, matching[k..]))
    {
      assert matching[k..][0] == matching[k] && matching[k..][1..] == matching[k + 1..];
      var participant := ReadParticipant(g, matching[k]);
      if participant.None? {
        return Err(InvalidTag("p"));
      }
      FollowingOneMore(participants, participant.value, ReadParticipants(g, matching[k + 1..]));
      participants := participants + [participant.value];
    }
    return Ok(participants);
  }

  function ReadRequests(g: Grammar, tags: seq<Tag>): Result<seq<Request>, ParseError> {
    if tags == [] then Ok([])
    else if ReadRequest(g, tags[0]).None? then Err(InvalidTag("a"))
    else
      var rest :- ReadRequests(g, tags[1..]);
      Ok([ReadRequest(g, tags[0]).value] + rest)
  }

  // ----- the shared metadata

  datatype Metadata = Metadata(
    dTag: string,
    title: string,
    description: Option<string>,
    locations: seq<string>,
    geohash: Option<string>,
    summary: Option<string>,
    image: Option<string>,
    participants: seq<Participant>,
    categories: seq<string>,
    references: seq<string>,
    requests: seq<Request>,
    legacyName: Option<string>)

  function OptionalContent(content: string): Option<string> {
    if content == "" then None else Some(content)
  }

  predicate Inbound(g: Grammar, p: Participant) {
    && g.key(p.pubkey)
    && (p.relay.Some? ==> Relay(g, p.relay.value))
    && (p.role.Some? ==> TagText(p.role.value))
  }

  /** `ParsedNip52CalendarCommon::try_new`. */
  predicate TryNewAccepts(g: Grammar, m: Metadata) {
    && TagText(m.dTag) && TagText(m.title)
    && (m.description.Some? ==> Utf8Len(m.description.value) <= CONTENT_MAX_BYTES)
    && AllAdmit(m.locations, TagText)
    && (m.geohash.Some? ==> Geohash(m.geohash.value))
    && (m.summary.Some? ==> TagText(m.summary.value))
    && (forall i :: 0 <= i < |m.participants| ==> Inbound(g, m.participants[i]))
    && AllAdmit(m.categories, TagText)
    && (m.legacyName.Some? ==> TagText(m.legacyName.value))
  }

  /** `parse_nip52_calendar_common` up to its closing construction. */
  function ReadMetadata(g: Grammar, tags: seq<Tag>, content: string): Result<Metadata, ParseError> {
    var dTag :- RequiredWhere(tags, "d", TagText);
    var title :- RequiredWhere(tags, "title", TagText);
    var locations :- RepeatedWhere(tags, "location", TagText);
    var geohash :- OptionalWhere(tags, "g", Geohash);
    var summary :- OptionalWhere(tags, "summary", TagText);
    var image :- OptionalWhere(tags, "image", UriIn(g));
    var participants :- ReadParticipants(g, Matching(tags, "p"));
    var categories :- RepeatedWhere(tags, "t", TagText);
    var references :- RepeatedWhere(tags, "r", UriIn(g));
    var requests :- ReadRequests(g, Matching(tags, "a"));
    var legacyName :- OptionalWhere(tags, "name", TagText);
    Ok(Metadata(dTag, title, OptionalContent(content), locations, geohash, summary, image, participants,
                categories, references, requests, legacyName))
  }

  function ParseMetadata(g: Grammar, tags: seq<Tag>, content: string): Result<Metadata, ParseError> {
    var m :- ReadMetadata(g, tags, content);
    if TryNewAccepts(g, m) then Ok(m) else Err(InvalidTag("calendar"))
  }

  // ----- admission

  datatype AdmissionError =
    | NonCanonicalField(field: string)
    | LimitExceeded(actual: nat)
    | IncompleteDayCoverage
    | NonBlossomImage

  /** Lower-case hexadecimal, as `to_hex` prints it. */
  predicate CanonicalKey(g: Grammar, value: string) {
    g.key(value) && forall i :: 0 <= i < |value| ==> IsHexDigit(value[i])
  }

  lemma CanonicalKeyExact(g: Grammar, value: string)
    ensures CanonicalKey(g, value) <==> g.key(value) && forall c: char | c in value :: c in "0123456789abcdef"
  {
    forall c: char
      ensures IsHexDigit(c) <==> c in "0123456789abcdef"
    {
      HexAlphabet(c);
    }
    assert forall i :: 0 <= i < |value| ==> value[i] in value;
  }

  lemma HexAlphabet(c: char)
    ensures IsHexDigit(c) <==> c in "0123456789abcdef"
  {
  }

  predicate StrictParticipant(g: Grammar, p: Participant) {
    && CanonicalKey(g, p.pubkey)
    && (p.relay.Some? ==> Relay(g, p.relay.value) && g.strictRelay(p.relay.value))
    && (p.role.Some? ==> CanonicalText(p.role.value))
  }

  /** `validate_authored_calendar_participants`. */
  predicate StrictParticipants(g: Grammar, ps: seq<Participant>) {
    |ps| <= MAX_PARTICIPANTS && forall i :: 0 <= i < |ps| ==> StrictParticipant(g, ps[i])
  }

  predicate StrictRequest(g: Grammar, r: Request) {
    g.strictCalendar(r.calendar) && (r.relay.Some? ==> g.strictRelay(r.relay.value))
  }

  /** Every rule on an authored participant and an authored request: all of them must hold. */
  lemma StrictRules(g: Grammar, ps: seq<Participant>, r: Request)
    ensures StrictParticipants(g, ps) <==>
              && |ps| <= 1_008
              && forall p: Participant | p in ps ::
                   && g.key(p.pubkey) && (forall c: char | c in p.pubkey :: c in "0123456789abcdef")
                   && (p.relay.Some? ==> p.relay.value != "" && g.relay(p.relay.value) && g.strictRelay(p.relay.value))
                   && (p.role.Some? ==> CanonicalText(p.role.value))
    ensures !StrictRequest(g, r) <==> !g.strictCalendar(r.calendar) || (r.relay.Some? && !g.strictRelay(r.relay.value))
  {
    forall p: Participant
      ensures CanonicalKey(g, p.pubkey) <==> g.key(p.pubkey) && forall c: char | c in p.pubkey :: c in "0123456789abcdef"
    {
      CanonicalKeyExact(g, p.pubkey);
    }
    assert forall i :: 0 <= i < |ps| ==> ps[i] in ps;
  }

  predicate CanonicalMetadata(g: Grammar, m: Metadata) {
    && CanonicalText(m.title)
    && AllAdmit(m.locations, CanonicalText)
    && (m.summary.Some? ==> CanonicalText(m.summary.value))
    && (m.geohash.Some? ==> CanonicalGeohash(m.geohash.value))
    && AllAdmit(m.categories, CanonicalText)
    && (m.legacyName.Some? ==> CanonicalText(m.legacyName.value))
    && (forall i :: 0 <= i < |m.requests| ==> StrictRequest(g, m.requests[i]))
  }

  /** The metadata checks that admission makes before it looks at an event's own fields. */
  function AdmitMetadata(g: Grammar, m: Metadata): Result<(), AdmissionError> {
    if !CanonicalMetadata(g, m) then Err(NonCanonicalField("metadata"))
    else if !StrictParticipants(g, m.participants) then Err(NonCanonicalField("participant"))
    else if !DTag(m.dTag) then Err(NonCanonicalField("d"))
    else Ok(())
  }

  predicate BlossomImage(g: Grammar, m: Metadata) {
    m.image.Some? ==> g.blob(m.image.value)
  }

  // ----- each reader returns exactly what some tags would have been written for

  lemma OptionalExact(tags: seq<Tag>, key: string, admits: string -> bool, value: Option<string>)
    ensures OptionalWhere(tags, key, admits) == Ok(value) <==>
              && Matching(tags, key) == OptionalTag(key, value)
              && (value.Some? ==> value.value != "" && admits(value.value))
  {
    OptionalValueExact(tags, key, value);
  }

  lemma OptionalValueExact(tags: seq<Tag>, key: string, value: Option<string>)
    ensures OptionalValue(tags, key) == Ok(value) <==>
              Matching(tags, key) == OptionalTag(key, value) && (value.Some? ==> value.value != "")
  {
    var matching := Matching(tags, key);
    MatchingKeys(tags, key);
    if |matching| == 1 && |matching[0]| == 2 {
      assert HasKey(matching[0], key);
      assert matching[0] == [key, matching[0][1]];
    }
  }

  lemma RequiredExact(tags: seq<Tag>, key: string, admits: string -> bool, value: string)
    ensures RequiredWhere(tags, key, admits) == Ok(value) <==>
              Matching(tags, key) == [[key, value]] && value != "" && admits(value)
  {
    OptionalValueExact(tags, key, Some(value));
  }

  predicate NoneEmpty(values: seq<string>) {
    forall i :: 0 <= i < |values| ==> values[i] != ""
  }

  lemma {:induction false} ValuesExact(matching: seq<Tag>, key: string, values: seq<string>)
    requires AllKeyed(matching, key)
    ensures Values(matching, key) == Ok(values) <==> matching == KeyedTags(key, values) && NoneEmpty(values)
    decreases |matching|
  {
    if matching != [] && |matching[0]| == 2 {
      assert HasKey(matching[0], key);
      assert matching[0] == [key, matching[0][1]];
      if values != [] {
        ValuesExact(matching[1..], key, values[1..]);
        assert matching == [matching[0]] + matching[1..];
        assert values == [values[0]] + values[1..];
      }
    }
  }

  lemma RepeatedExact(tags: seq<Tag>, key: string, admits: string -> bool, values: seq<string>)
    ensures RepeatedWhere(tags, key, admits) == Ok(values) <==>
              Matching(tags, key) == KeyedTags(key, values) && NoneEmpty(values) && AllAdmit(values, admits)
  {
    MatchingKeys(tags, key);
    ValuesExact(Matching(tags, key), key, values);
  }

  lemma ParticipantExact(g: Grammar, tag: Tag, p: Participant)
    requires HasKey(tag, "p")
    ensures ReadParticipant(g, tag) == Some(p) <==> tag == ParticipantTag(p) && Inbound(g, p)
  {
  }

  predicate AllInbound(g: Grammar, ps: seq<Participant>) {
    forall i :: 0 <= i < |ps| ==> Inbound(g, ps[i])
  }

  lemma {:induction false} ParticipantsExact(g: Grammar, tags: seq<Tag>, ps: seq<Participant>)
    requires AllKeyed(tags, "p")
    ensures ReadParticipants(g, tags) == Ok(ps) <==> tags == ParticipantTags(ps) && AllInbound(g, ps)
    decreases |tags|
  {
    if tags != [] && ps != [] {
      ParticipantExact(g, tags[0], ps[0]);
      ParticipantsExact(g, tags[1..], ps[1..]);
      assert tags == [tags[0]] + tags[1..] && ps == [ps[0]] + ps[1..];
    }
  }

  predicate Requestable(g: Grammar, r: Request) {
    r.calendar != "" && g.calendar(r.calendar) && (r.relay.Some? ==> Relay(g, r.relay.value))
  }

  predicate AllRequestable(g: Grammar, rs: seq<Request>) {
    forall i :: 0 <= i < |rs| ==> Requestable(g, rs[i])
  }

  lemma RequestExact(g: Grammar, tag: Tag, r: Request)
    requires HasKey(tag, "a")
    ensures ReadRequest(g, tag) == Some(r) <==> tag == ["a", r.calendar] + OptionalElement(r.relay) && Requestable(g, r)
  {
  }

  lemma {:induction false} RequestsExact(g: Grammar, tags: seq<Tag>, rs: seq<Request>)
    requires AllKeyed(tags, "a")
    ensures ReadRequests(g, tags) == Ok(rs) <==> tags == RequestTags(rs) && AllRequestable(g, rs)
    decreases |tags|
  {
    if tags != [] && rs != [] {
      RequestExact(g, tags[0], rs[0]);
      RequestsExact(g, tags[1..], rs[1..]);
      assert tags == [tags[0]] + tags[1..] && rs == [rs[0]] + rs[1..];
    }
  }

  // ----- metadata as a whole

  /** The tags are those that would be written for `m`. */
  predicate Writes(tags: seq<Tag>, m: Metadata) {
    && Matching(tags, "d") == [["d", m.dTag]] && Matching(tags, "title") == [["title", m.title]]
    && Matching(tags, "location") == KeyedTags("location", m.locations)
    && Matching(tags, "g") == OptionalTag("g", m.geohash)
    && Matching(tags, "summary") == OptionalTag("summary", m.summary)
    && Matching(tags, "image") == OptionalTag("image", m.image)
    && Matching(tags, "p") == ParticipantTags(m.participants)
    && Matching(tags, "t") == KeyedTags("t", m.categories)
    && Matching(tags, "r") == KeyedTags("r", m.references)
    && Matching(tags, "a") == RequestTags(m.requests)
    && Matching(tags, "name") == OptionalTag("name", m.legacyName)
  }

  predicate Readable(g: Grammar, m: Metadata) {
    && TagText(m.dTag) && TagText(m.title) && AllAdmit(m.locations, TagText)
    && (m.geohash.Some? ==> Geohash(m.geohash.value)) && (m.summary.Some? ==> TagText(m.summary.value))
    && (m.image.Some? ==> Uri(g, m.image.value)) && AllInbound(g, m.participants)
    && AllAdmit(m.categories, TagText) && AllAdmit(m.references, UriIn(g)) && AllRequestable(g, m.requests)
    && (m.legacyName.Some? ==> TagText(m.legacyName.value))
  }

  lemma AdmittedNotEmpty(values: seq<string>, g: Grammar)
    ensures AllAdmit(values, TagText) || AllAdmit(values, UriIn(g)) ==> NoneEmpty(values)
  {
    assert !TagText("");
  }

  /** Every reader succeeds with the field of `m` it reads. */
  predicate ReadsTo(g: Grammar, tags: seq<Tag>, m: Metadata) {
    && RequiredWhere(tags, "d", TagText) == Ok(m.dTag) && RequiredWhere(tags, "title", TagText) == Ok(m.title)
    && RepeatedWhere(tags, "location", TagText) == Ok(m.locations)
    && OptionalWhere(tags, "g", Geohash) == Ok(m.geohash) && OptionalWhere(tags, "summary", TagText) == Ok(m.summary)
    && OptionalWhere(tags, "image", UriIn(g)) == Ok(m.image)
    && ReadParticipants(g, Matching(tags, "p")) == Ok(m.participants)
    && RepeatedWhere(tags, "t", TagText) == Ok(m.categories) && RepeatedWhere(tags, "r", UriIn(g)) == Ok(m.references)
    && ReadRequests(g, Matching(tags, "a")) == Ok(m.requests)
    && OptionalWhere(tags, "name", TagText) == Ok(m.legacyName)
  }

  lemma ReadFieldByField(g: Grammar, tags: seq<Tag>, content: string, m: Metadata)
    ensures ReadMetadata(g, tags, content) == Ok(m) <==> m.description == OptionalContent(content) && ReadsTo(g, tags, m)
  {
  }

  lemma FieldsExact(g: Grammar, tags: seq<Tag>, m: Metadata)
    ensures ReadsTo(g, tags, m) <==> Writes(tags, m) && Readable(g, m)
  {
    RequiredExact(tags, "d", TagText, m.dTag);
    RequiredExact(tags, "title", TagText, m.title);
    RepeatedExact(tags, "location", TagText, m.locations);
    OptionalExact(tags, "g", Geohash, m.geohash);
    OptionalExact(tags, "summary", TagText, m.summary);
    OptionalExact(tags, "image", UriIn(g), m.image);
    MatchingKeys(tags, "p");
    ParticipantsExact(g, Matching(tags, "p"), m.participants);
    RepeatedExact(tags, "t", TagText, m.categories);
    RepeatedExact(tags, "r", UriIn(g), m.references);
    MatchingKeys(tags, "a");
    RequestsExact(g, Matching(tags, "a"), m.requests);
    OptionalExact(tags, "name", TagText, m.legacyName);
    AdmittedNotEmpty(m.locations, g);
    AdmittedNotEmpty(m.categories, g);
    AdmittedNotEmpty(m.references, g);
    assert !TagText("");
  }

  /** Metadata is read exactly from the tags that would be written for it. */
  lemma ReadExact(g: Grammar, tags: seq<Tag>, content: string, m: Metadata)
    ensures ReadMetadata(g, tags, content) == Ok(m) <==>
              m.description == OptionalContent(content) && Writes(tags, m) && Readable(g, m)
  {
    ReadFieldByField(g, tags, content, m);
    FieldsExact(g, tags, m);
  }

  /** The closing construction re-checks what the readers have already checked, so it never refuses. */
  lemma ClosingChecksPass(g: Grammar, tags: seq<Tag>, content: string)
    requires Utf8Len(content) <= CONTENT_MAX_BYTES
    ensures ParseMetadata(g, tags, content) == ReadMetadata(g, tags, content)
  {
    if ReadMetadata(g, tags, content).Ok? {
      ReadExact(g, tags, content, ReadMetadata(g, tags, content).value);
    }
  }

  /** What the authoring API demands of metadata, field by field. */
  predicate CommonAdmissible(g: Grammar, c: Common) {
    && AllAdmit(c.locations, CanonicalText)
    && (c.geohash.Some? ==> CanonicalGeohash(c.geohash.value))
    && (c.summary.Some? ==> CanonicalText(c.summary.value))
    && (c.image.Some? ==> Uri(g, c.image.value) && g.blob(c.image.value))
    && (c.participants.Some? ==> StrictParticipants(g, c.participants.value))
    && AllAdmit(c.categories, CanonicalText)
    && AllAdmit(c.references, UriIn(g))
    && AllRequestable(g, c.requests) && (forall i :: 0 <= i < |c.requests| ==> StrictRequest(g, c.requests[i]))
  }

  function MetadataOf(dTag: string, title: string, content: string, c: Common, name: Option<string>): Metadata {
    Metadata(dTag, title, OptionalContent(content), c.locations, c.geohash, c.summary, c.image,
             if c.participants.Some? then c.participants.value else [], c.categories, c.references, c.requests, name)
  }

  function CommonOf(m: Metadata): Common {
    Common(m.locations, m.geohash, m.summary, m.image, Some(m.participants), m.categories, m.references, m.requests)
  }

  predicate Identified(dTag: string, title: string) {
    DTag(dTag) && CanonicalText(title)
  }

  lemma DTagIsText(value: string)
    requires DTag(value)
    ensures TagText(value)
  {
    assert !WhiteSpace(value[0]);
  }

  /** Metadata is both readable and admitted exactly when the authoring API would accept its fields. */
  lemma MetadataAdmittedExactly(g: Grammar, m: Metadata)
    ensures Readable(g, m) && AdmitMetadata(g, m).Ok? && BlossomImage(g, m) <==>
              Identified(m.dTag, m.title) && CommonAdmissible(g, CommonOf(m)) && NameFits(m.legacyName)
  {
    if DTag(m.dTag) {
      DTagIsText(m.dTag);
    }
  }

  predicate NameFits(name: Option<string>) {
    name.Some? ==> CanonicalText(name.value)
  }

  /** Metadata is parsed and admitted exactly from the tags written for fields the authoring API accepts. */
  lemma MetadataExact(g: Grammar, tags: seq<Tag>, content: string, m: Metadata)
    requires Utf8Len(content) <= CONTENT_MAX_BYTES
    ensures ParseMetadata(g, tags, content) == Ok(m) && AdmitMetadata(g, m).Ok? && BlossomImage(g, m) <==>
              && m.description == OptionalContent(content) && Writes(tags, m)
              && Identified(m.dTag, m.title) && CommonAdmissible(g, CommonOf(m)) && NameFits(m.legacyName)
  {
    MetadataAdmittedExactly(g, m);
    ReadExact(g, tags, content, m);
    ClosingChecksPass(g, tags, content);
  }

  /** An event without participants is as admissible as one with an empty list of them. */
  lemma CommonOfMetadata(g: Grammar, dTag: string, title: string, content: string, c: Common, name: Option<string>)
    requires CommonAdmissible(g, c)
    ensures CommonAdmissible(g, CommonOf(MetadataOf(dTag, title, content, c, name)))
  {
  }
}
