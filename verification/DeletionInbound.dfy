/** Received deletion requests: the projection of crates/event_codec/src/deletion/reconciliation_v1.rs. */
module DeletionInbound {
  import opened Coordinates
  import opened Digits
  import opened InboundBudget
  import opened Json
  import opened Results
  import opened Sequences
  import opened Text
  import Deletion

  datatype ProjectionError =
    | UnsupportedKind(actual: nat)
    | ContentTooLarge(actual: nat)
    | OverBudget
    | EventTargetShape(tagIndex: nat)
    | EventTargetInvalid(tagIndex: nat)
    | AddressTargetShape(tagIndex: nat)
    | AddressTargetInvalid(tagIndex: nat)
    | TargetMissing

  /** The ordered maps of the source, by their keys. */
  datatype Targets = Targets(events: set<string>, addresses: set<Coordinate>)

  datatype Projection = Projection(events: set<string>, addresses: set<Coordinate>, kinds: set<nat>)

  predicate HasName(tag: Tag, name: string) {
    tag != [] && tag[0] == name
  }

  /** One tag of the target loop. */
  function ReadTarget(keyOk: string -> bool, t: Targets, tag: Tag, index: nat): Result<Targets, ProjectionError> {
    if HasName(tag, "e") then
      if |tag| < 2 then Err(EventTargetShape(index))
      else if ParseId(tag[1]).None? then Err(EventTargetInvalid(index))
      else Ok(t.(events := t.events + {ParseId(tag[1]).value}))
    else if HasName(tag, "a") then
      if |tag| < 2 then Err(AddressTargetShape(index))
      else if ParseCoordinate(keyOk, tag[1]).None? then Err(AddressTargetInvalid(index))
      else Ok(t.(addresses := t.addresses + {ParseCoordinate(keyOk, tag[1]).value}))
    else Ok(t)
  }

  function ReadTargets(keyOk: string -> bool, tags: seq<Tag>): Result<Targets, ProjectionError> {
    if tags == [] then Ok(Targets({}, {}))
    else
      var init :- ReadTargets(keyOk, tags[..|tags| - 1]);
      ReadTarget(keyOk, init, tags[|tags| - 1], |tags| - 1)
  }

  /** A kind advisory is read only in canonical decimal and within range; anything else is skipped. */
  function ReadKind(tag: Tag): Option<nat> {
    if !HasName(tag, "k") || |tag| < 2 then None
    else
      var kind := ParseU32(tag[1]);
      if kind.None? || kind.value > Deletion.TARGET_KIND_MAX || NatText(kind.value) != tag[1] then None else kind
  }

  function ReadKinds(tags: seq<Tag>): set<nat> {
    if tags == [] then {}
    else
      var kind := ReadKind(tags[|tags| - 1]);
      ReadKinds(tags[..|tags| - 1]) + if kind.Some? then {kind.value} else {}
  }

  const FIXED_BYTES: nat := Deletion.SIGNED_EVENT_FIXED_MAX_BYTES - 20

  /** `project_nip09_deletion_request_parts`; `keyOk` stands for the curve. */
  function Project(keyOk: string -> bool, kind: nat, tags: seq<Tag>, content: string, createdAt: U64)
    : Result<Projection, ProjectionError>
  {
    if kind != Deletion.KIND_DELETION_REQUEST then Err(UnsupportedKind(kind))
    else if Utf8Len(content) > Deletion.CONTENT_MAX_BYTES then Err(ContentTooLarge(Utf8Len(content)))
    else if !WithinBudgets(FIXED_BYTES, tags, content, |NatText(createdAt)|) then Err(OverBudget)
    else
      var t :- ReadTargets(keyOk, tags);
      if t.events == {} && t.addresses == {} then Err(TargetMissing)
      else Ok(Projection(t.events, t.addresses, ReadKinds(tags)))
  }

  lemma {:induction false} ReadTargetsStop(keyOk: string -> bool, tags: seq<Tag>, k: nat)
    requires k <= |tags| && ReadTargets(keyOk, tags[..k]).Err?
    ensures ReadTargets(keyOk, tags) == ReadTargets(keyOk, tags[..k])
    decreases |tags|
  {
    if k == |tags| {
      assert tags[..k] == tags;
    } else {
      assert tags[..|tags| - 1][..k] == tags[..k];
      ReadTargetsStop(keyOk, tags[..|tags| - 1], k);
    }
  }

  method ProjectRequest(keyOk: string -> bool, kind: nat, tags: seq<Tag>, content: string, createdAt: U64)
    returns (r: Result<Projection, ProjectionError>)
    ensures r == Project(keyOk, kind, tags, content, createdAt)
  {
    if kind != Deletion.KIND_DELETION_REQUEST {
      return Err(UnsupportedKind(kind));
    }
    if Utf8Len(content) > Deletion.CONTENT_MAX_BYTES {
      return Err(ContentTooLarge(Utf8Len(content)));
    }
    DigitsFit(createdAt);
    var fault := ValidateBudgets(FIXED_BYTES, tags, content, |NatText(createdAt)|);
    if fault.Some? {
      return Err(OverBudget);
    }
    var targets := CollectTargets(keyOk, tags);
    if targets.Err? {
      return Err(targets.error);
    }
    if targets.value.events == {} && targets.value.addresses == {} {
      return Err(TargetMissing);
    }
    var kinds := CollectKinds(tags);
    return Ok(Projection(targets.value.events, targets.value.addresses, kinds));
  }

  method CollectTargets(keyOk: string -> bool, tags: seq<Tag>) returns (r: Result<Targets, ProjectionError>)
    ensures r == ReadTargets(keyOk, tags)
  {
    var events: set<string>, addresses: set<Coordinate> := {}, {};
    for i := 0 to |tags|
      invariant ReadTargets(keyOk, tags[..i]) == Ok(Targets(events, addresses))
    {
      var tag := tags[i];
      assert tags[..i + 1][..i] == tags[..i];
      if ReadTarget(keyOk, Targets(events, addresses), tag, i).Err? {
        ReadTargetsStop(keyOk, tags, i + 1);
      }
      if HasName(tag, "e") {
        if |tag| < 2 {
          return Err(EventTargetShape(i));
        }
        var id := ParseId(tag[1]);
        if id.None? {
          return Err(EventTargetInvalid(i));
        }
        events := events + {id.value};
      } else if HasName(tag, "a") {
        if |tag| < 2 {
          return Err(AddressTargetShape(i));
        }
        var coordinate := ParseCoordinate(keyOk, tag[1]);
        if coordinate.None? {
          return Err(AddressTargetInvalid(i));
        }
        addresses := addresses + {coordinate.value};
      }
    }
    assert tags[..|tags|] == tags;
    return Ok(Targets(events, addresses));
  }

  method CollectKinds(tags: seq<Tag>) returns (kinds: set<nat>)
    ensures kinds == ReadKinds(tags)
  {
    kinds := {};
    for i := 0 to |tags|
      invariant kinds == ReadKinds(tags[..i])
    {
      assert tags[..i + 1][..i] == tags[..i];
      var kind := ReadKind(tags[i]);
      if kind.Some? {
        kinds := kinds + {kind.value};
      }
    }
    assert tags[..|tags|] == tags;
  }

  // ----- what a projection says about its tags

  predicate WellFormed(keyOk: string -> bool, tag: Tag) {
    && (HasName(tag, "e") ==> |tag| >= 2 && ParseId(tag[1]).Some?)
    && (HasName(tag, "a") ==> |tag| >= 2 && ParseCoordinate(keyOk, tag[1]).Some?)
  }

  predicate NamesEvent(tag: Tag, id: string) {
    |tag| >= 2 && tag[0] == "e" && ParseId(tag[1]) == Some(id)
  }

  predicate NamesAddress(keyOk: string -> bool, tag: Tag, c: Coordinate) {
    |tag| >= 2 && tag[0] == "a" && ParseCoordinate(keyOk, tag[1]) == Some(c)
  }

  /** The targets read are exactly those named by the tags, and every target tag is well formed. */
  ghost predicate TargetsOf(keyOk: string -> bool, tags: seq<Tag>, t: Targets) {
    && (forall tag | tag in tags :: WellFormed(keyOk, tag))
    && (forall id :: id in t.events <==> SomeEventTag(tags, id))
    && (forall c :: c in t.addresses <==> SomeAddressTag(keyOk, tags, c))
  }

  ghost predicate SomeEventTag(tags: seq<Tag>, id: string) {
    exists tag | tag in tags :: NamesEvent(tag, id)
  }

  ghost predicate SomeAddressTag(keyOk: string -> bool, tags: seq<Tag>, c: Coordinate) {
    exists tag | tag in tags :: NamesAddress(keyOk, tag, c)
  }

  lemma {:induction false} TargetsExact(keyOk: string -> bool, tags: seq<Tag>)
    ensures ReadTargets(keyOk, tags).Ok? <==> forall tag | tag in tags :: WellFormed(keyOk, tag)
    ensures ReadTargets(keyOk, tags).Ok? ==> TargetsOf(keyOk, tags, ReadTargets(keyOk, tags).value)
  {
    if tags != [] {
      var init, last := tags[..|tags| - 1], tags[|tags| - 1];
      TargetsExact(keyOk, init);
      assert tags == init + [last];
      assert (forall tag | tag in tags :: WellFormed(keyOk, tag)) <==>
             (forall tag | tag in init :: WellFormed(keyOk, tag)) && WellFormed(keyOk, last) by {
        assert last in tags;
      }
      if ReadTargets(keyOk, tags).Ok? {
        TargetsSnoc(keyOk, init, last, ReadTargets(keyOk, init).value, ReadTargets(keyOk, tags).value);
      }
    }
  }

  lemma {:induction false} TargetsSnoc(keyOk: string -> bool, init: seq<Tag>, last: Tag, before: Targets, after: Targets)
    requires TargetsOf(keyOk, init, before) && ReadTarget(keyOk, before, last, |init|) == Ok(after)
    ensures TargetsOf(keyOk, init + [last], after)
  {
    var tags := init + [last];
    forall tag: Tag
      ensures tag in tags <==> tag in init || tag == last
    {
    }
    forall id: string
      ensures id in after.events <==> SomeEventTag(tags, id)
    {
      if id in after.events && id !in before.events {
        assert NamesEvent(last, id);
      }
    }
    forall c: Coordinate
      ensures c in after.addresses <==> SomeAddressTag(keyOk, tags, c)
    {
      if c in after.addresses && c !in before.addresses {
        assert NamesAddress(keyOk, last, c);
      }
    }
  }

  predicate NamesKind(tag: Tag, kind: nat) {
    |tag| >= 2 && tag[0] == "k" && tag[1] == NatText(kind)
  }

  lemma ReadKindExact(tag: Tag, kind: nat)
    ensures ReadKind(tag) == Some(kind) <==> kind <= 65_535 && NamesKind(tag, kind)
  {
    if kind <= 65_535 {
      ParsePrintedU32(kind);
    }
  }

  lemma {:induction false} KindsExact(tags: seq<Tag>, kind: nat)
    ensures kind in ReadKinds(tags) <==> kind <= 65_535 && exists tag | tag in tags :: NamesKind(tag, kind)
  {
    if tags != [] {
      var init, last := tags[..|tags| - 1], tags[|tags| - 1];
      KindsExact(init, kind);
      ReadKindExact(last, kind);
      assert tags == init + [last];
      assert (exists tag | tag in tags :: NamesKind(tag, kind)) <==>
             (exists tag | tag in init :: NamesKind(tag, kind)) || NamesKind(last, kind) by {
        assert last in tags;
      }
    }
  }

  // ----- authored requests are projected to exactly what they were given

  /** The address target is the canonical text and the kind of a valid coordinate. */
  predicate IsTarget(keyOk: string -> bool, c: Coordinate, t: Deletion.Target) {
    ValidCoordinate(keyOk, c) && t == Deletion.Target(CoordinateText(c), c.kind)
  }

  ghost predicate AllCoordinates(keyOk: string -> bool, addresses: seq<Deletion.AddressTarget>) {
    forall t | t in addresses :: exists c :: IsTarget(keyOk, c, t)
  }

  lemma TargetParses(keyOk: string -> bool, c: Coordinate, t: Deletion.AddressTarget)
    requires IsTarget(keyOk, c, t)
    ensures ParseCoordinate(keyOk, t.text) == Some(c)
  {
    ParseCanonical(keyOk, c);
  }

  /** What a receiver reads is what the author gave. */
  ghost predicate SameRequest(keyOk: string -> bool, events: seq<Deletion.EventTarget>,
                              addresses: seq<Deletion.AddressTarget>, p: Projection)
  {
    && (forall id :: id in p.events <==> EventGiven(events, id))
    && (forall c :: c in p.addresses <==> AddressGiven(keyOk, addresses, c))
    && (forall kind :: kind in p.kinds <==> KindGiven(events, kind) || KindGiven(addresses, kind))
  }

  ghost predicate EventGiven(events: seq<Deletion.Target>, id: string) {
    exists t | t in events :: t.text == id
  }

  ghost predicate AddressGiven(keyOk: string -> bool, addresses: seq<Deletion.Target>, c: Coordinate) {
    exists t | t in addresses :: IsTarget(keyOk, c, t)
  }

  ghost predicate KindGiven(targets: seq<Deletion.Target>, kind: nat) {
    exists t | t in targets :: t.kind == kind
  }

  lemma {:induction false} AuthoredTargets(keyOk: string -> bool, content: string, events: seq<Deletion.EventTarget>,
                                           addresses: seq<Deletion.AddressTarget>, r: Deletion.Request)
    requires Deletion.Author(content, events, addresses) == Ok(r) && AllCoordinates(keyOk, addresses)
    ensures ReadTargets(keyOk, Deletion.WireTags(r)).Ok?
    ensures SameRequest(keyOk, events, addresses, Projection(ReadTargets(keyOk, Deletion.WireTags(r)).value.events,
              ReadTargets(keyOk, Deletion.WireTags(r)).value.addresses, ReadKinds(Deletion.WireTags(r))))
  {
    var tags := Deletion.WireTags(r);
    Deletion.WireTagsExact(content, events, addresses, r);
    forall tag | tag in tags
      ensures WellFormed(keyOk, tag)
    {
      TagWellFormed(keyOk, events, addresses, tag);
    }
    TargetsExact(keyOk, tags);
    forall id: string
      ensures SomeEventTag(tags, id) <==> EventGiven(events, id)
    {
      EventNamed(events, addresses, tags, id);
    }
    forall c: Coordinate
      ensures SomeAddressTag(keyOk, tags, c) <==> AddressGiven(keyOk, addresses, c)
    {
      AddressNamed(keyOk, events, addresses, tags, c);
    }
    forall kind: nat
      ensures kind in ReadKinds(tags) <==> KindGiven(events, kind) || KindGiven(addresses, kind)
    {
      KindNamed(events, addresses, tags, kind);
    }
  }

  lemma {:induction false} TagWellFormed(keyOk: string -> bool, events: seq<Deletion.EventTarget>,
                                         addresses: seq<Deletion.AddressTarget>, tag: Tag)
    requires AllCoordinates(keyOk, addresses) && Deletion.NamesTarget(tag, events, addresses)
    ensures WellFormed(keyOk, tag)
  {
    if Deletion.NamesText(tag, "e", events) {
      var t :| t in events && tag == ["e", t.text];
      ParseCanonicalId(t.text);
    } else if Deletion.NamesText(tag, "a", addresses) {
      var t :| t in addresses && tag == ["a", t.text];
      var c :| IsTarget(keyOk, c, t);
      TargetParses(keyOk, c, t);
    }
  }

  lemma {:induction false} EventNamed(events: seq<Deletion.EventTarget>, addresses: seq<Deletion.AddressTarget>,
                                      tags: seq<Tag>, id: string)
    requires forall tag :: tag in tags <==> Deletion.NamesTarget(tag, events, addresses)
    ensures SomeEventTag(tags, id) <==> EventGiven(events, id)
  {
    if tag :| tag in tags && NamesEvent(tag, id) {
      var t :| t in events && tag == ["e", t.text];
      ParseCanonicalId(t.text);
    }
    if t :| t in events && t.text == id {
      ParseCanonicalId(id);
      var tag := ["e", id];
      assert Deletion.NamesText(tag, "e", events);
      assert tag in tags && NamesEvent(tag, id);
    }
  }

  lemma {:induction false} AddressNamed(keyOk: string -> bool, events: seq<Deletion.EventTarget>,
                                        addresses: seq<Deletion.AddressTarget>, tags: seq<Tag>, c: Coordinate)
    requires AllCoordinates(keyOk, addresses)
    requires forall tag :: tag in tags <==> Deletion.NamesTarget(tag, events, addresses)
    ensures SomeAddressTag(keyOk, tags, c) <==> AddressGiven(keyOk, addresses, c)
  {
    if tag :| tag in tags && NamesAddress(keyOk, tag, c) {
      var t :| t in addresses && tag == ["a", t.text];
      var d :| IsTarget(keyOk, d, t);
      TargetParses(keyOk, d, t);
      assert IsTarget(keyOk, c, t);
    }
    if t :| t in addresses && IsTarget(keyOk, c, t) {
      TargetParses(keyOk, c, t);
      var tag := ["a", t.text];
      assert Deletion.NamesText(tag, "a", addresses);
      assert tag in tags && NamesAddress(keyOk, tag, c);
    }
  }

  lemma {:induction false} KindNamed(events: seq<Deletion.EventTarget>, addresses: seq<Deletion.AddressTarget>,
                                     tags: seq<Tag>, kind: nat)
    requires forall tag :: tag in tags <==> Deletion.NamesTarget(tag, events, addresses)
    ensures kind in ReadKinds(tags) <==> KindGiven(events, kind) || KindGiven(addresses, kind)
  {
    KindsExact(tags, kind);
    if tag :| tag in tags && NamesKind(tag, kind) {
      var t: Deletion.Target :| (t in events || t in addresses) && tag == ["k", NatText(t.kind)];
      NatTextIsCanonical(kind);
      NatTextIsCanonical(t.kind);
    }
    if t: Deletion.Target :| (t in events || t in addresses) && t.kind == kind {
      var tag := ["k", NatText(kind)];
      assert Deletion.NamesTarget(tag, events, addresses);
      assert tag in tags && NamesKind(tag, kind);
    }
  }

  lemma {:induction false} NamedIsSmall(events: seq<Deletion.EventTarget>, addresses: seq<Deletion.AddressTarget>, tag: Tag)
    requires Deletion.NamesTarget(tag, events, addresses)
    ensures |tag| == 2 && SmallElements(tag)
  {
    Deletion.OneByteNames();
    if Deletion.NamesText(tag, "e", events) {
      var t :| t in events && tag == ["e", t.text];
      AsciiLength(t.text);
    } else if !Deletion.NamesText(tag, "a", addresses) {
      var t: Deletion.Target :| (t in events || t in addresses) && tag == ["k", NatText(t.kind)];
      NatTextLength(t.kind, 6);
      Pow10Table();
      NatTextBytes(t.kind);
    }
  }

  lemma {:induction false} PairElements(tags: seq<Tag>)
    requires forall tag | tag in tags :: |tag| == 2
    ensures SumBy(tags, ElementCount) == 2 * |tags|
  {
    if tags != [] {
      assert tags == [tags[0]] + tags[1..];
      PairElements(tags[1..]);
    }
  }

  /** The sizes of the sorted request are those that were checked before sorting. */
  lemma {:induction false} AuthoredSizes(content: string, events: seq<Deletion.EventTarget>,
                                         addresses: seq<Deletion.AddressTarget>, r: Deletion.Request)
    requires Deletion.Author(content, events, addresses) == Ok(r)
    ensures r.content == content && |Deletion.WireTags(r)| <= 1024
    ensures SumBy(Deletion.WireTags(r), ElementBytes) <= 128 * 1024
    ensures Deletion.MeasuredSize(content, Deletion.WireTags(r)) <= 256 * 1024
  {
    Deletion.AcceptedParts(content, events, addresses, r);
    Deletion.SortTargetsExact(events);
    Deletion.SortTargetsExact(addresses);
    Deletion.AcceptsExactly(content, events, addresses);
    Deletion.TagSumsIgnoreOrder(events, addresses, r.events, r.addresses, r.kindHints, ElementBytes);
    Deletion.MeasuredSizeIgnoresOrder(content, events, addresses, r.events, r.addresses, r.kindHints);
  }

  lemma {:induction false} AuthoredElements(content: string, events: seq<Deletion.EventTarget>,
                                            addresses: seq<Deletion.AddressTarget>, r: Deletion.Request)
    requires Deletion.Author(content, events, addresses) == Ok(r)
    ensures forall tag | tag in Deletion.WireTags(r) :: |tag| == 2 && SmallElements(tag)
  {
    Deletion.WireTagsExact(content, events, addresses, r);
    forall tag | tag in Deletion.WireTags(r)
      ensures |tag| == 2 && SmallElements(tag)
    {
      NamedIsSmall(events, addresses, tag);
    }
  }

  lemma {:induction false} AuthoredWithinBudgets(content: string, events: seq<Deletion.EventTarget>,
                                                 addresses: seq<Deletion.AddressTarget>, r: Deletion.Request, createdAt: U64)
    requires Deletion.Author(content, events, addresses) == Ok(r)
    ensures WithinBudgets(FIXED_BYTES, Deletion.WireTags(r), r.content, |NatText(createdAt)|)
  {
    AuthoredSizes(content, events, addresses, r);
    AuthoredElements(content, events, addresses, r);
    DigitsFit(createdAt);
    SizesSuffice(Deletion.WireTags(r), r.content, |NatText(createdAt)|);
  }

  lemma DigitsFit(createdAt: U64)
    ensures |NatText(createdAt)| <= 20
  {
    TimestampDigits(createdAt);
  }

  lemma {:induction false} SizesSuffice(tags: seq<Tag>, content: string, digits: nat)
    requires |tags| <= 1024 && digits <= 20 && forall tag | tag in tags :: |tag| == 2 && SmallElements(tag)
    requires SumBy(tags, ElementBytes) <= 128 * 1024 && Deletion.MeasuredSize(content, tags) <= 256 * 1024
    ensures WithinBudgets(FIXED_BYTES, tags, content, digits)
  {
    PairElements(tags);
    assert forall i :: 0 <= i < |tags| ==> tags[i] in tags;
  }

  /** An accepted request, written out and received, is read as exactly the events, coordinates and kinds it was
      given, whatever the time it is signed at. */
  lemma {:induction false} AuthoredProjects(keyOk: string -> bool, content: string, events: seq<Deletion.EventTarget>,
                                            addresses: seq<Deletion.AddressTarget>, r: Deletion.Request, createdAt: U64)
    requires Deletion.Author(content, events, addresses) == Ok(r) && AllCoordinates(keyOk, addresses)
    ensures var p := Project(keyOk, 5, Deletion.WireTags(r), r.content, createdAt);
            p.Ok? && SameRequest(keyOk, events, addresses, p.value)
  {
    AuthoredWithinBudgets(content, events, addresses, r, createdAt);
    AuthoredTargets(keyOk, content, events, addresses, r);
    Deletion.AcceptsExactly(content, events, addresses);
    Deletion.AcceptedParts(content, events, addresses, r);
    SomeTarget(keyOk, events, addresses, ReadTargets(keyOk, Deletion.WireTags(r)).value, ReadKinds(Deletion.WireTags(r)));
  }

  lemma {:induction false} SomeTarget(keyOk: string -> bool, events: seq<Deletion.EventTarget>,
                                      addresses: seq<Deletion.AddressTarget>, t: Targets, kinds: set<nat>)
    requires events != [] || addresses != []
    requires AllCoordinates(keyOk, addresses)
    requires SameRequest(keyOk, events, addresses, Projection(t.events, t.addresses, kinds))
    ensures t.events != {} || t.addresses != {}
  {
    if events != [] {
      assert events[0] in events;
      assert EventGiven(events, events[0].text);
      assert events[0].text in t.events;
    } else {
      assert addresses[0] in addresses;
      var c :| IsTarget(keyOk, c, addresses[0]);
      assert AddressGiven(keyOk, addresses, c);
      assert c in t.addresses;
    }
  }
}
