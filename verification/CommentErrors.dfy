/** Which error a refused comment reports, stated from its tags:
    crates/event_codec/src/comment/inbound/registry_v7.rs. */
module CommentErrors {
  import opened CommentInbound
  import opened Comments
  import opened Coordinates
  import opened Digits
  import opened InboundBudget
  import opened Json
  import opened Results
  import opened Tags
  import opened Text

  /** The parent's author is missing without participants, mismatched when named but absent, and ambiguous when a
      reply does not name one among several. */
  lemma AuthorsTold(ps: seq<Participant>, expected: string, hint: Option<string>)
    ensures DirectAuthor(ps, expected, hint).Err? ==>
              DirectAuthor(ps, expected, hint) == if ps == [] then Err(ParentAuthorMissing) else Err(ParentAuthorMismatch)
    ensures NestedAuthor(ps, hint).Err? ==>
              NestedAuthor(ps, hint) == if ps == [] then Err(ParentAuthorMissing)
                                        else if hint.Some? then Err(ParentAuthorMismatch)
                                        else Err(ParentAuthorAmbiguous)
  {
  }

  // ----- the root

  ghost predicate NamesSomeRootKind(tag: Tag) {
    exists kind: RootKind :: NamesKind(tag, kind.Number())
  }

  ghost predicate NamesSomeone(g: Reader, tag: Tag) {
    exists p: Participant :: NamesParticipant(g, tag, p)
  }

  ghost predicate SpellsSomeAddress(g: Reader, s: string) {
    exists coordinate, kind, author :: SpellsAddress(g, s, coordinate, kind, author)
  }

  ghost predicate SpellsKind(g: Reader, s: string, kind: RootKind) {
    exists coordinate, author :: SpellsAddress(g, s, coordinate, kind, author)
  }

  function EventRootFault(tag: Tag): ProjectionError {
    if !(2 <= |tag| <= 4) then RootReferenceShape
    else if ParseId(tag[1]).None? then RootEventIdInvalid
    else RootAuthorMismatch
  }

  ghost function AddressRootFault(g: Reader, tag: Tag, kind: RootKind): ProjectionError {
    if !(2 <= |tag| <= 3) then RootReferenceShape
    else if !SpellsSomeAddress(g, tag[1]) then RootCoordinateInvalid
    else if !SpellsKind(g, tag[1], kind) then RootKindMismatch
    else RootAuthorMismatch
  }

  lemma RootKindRead(tag: Tag)
    ensures NamesSomeRootKind(tag) <==> ReadKind(tag).Some? && ParseRootKind(ReadKind(tag).value).Some?
    ensures NamesSomeRootKind(tag) ==> NamesKind(tag, ParseRootKind(ReadKind(tag).value).value.Number())
  {
    var number := ReadKind(tag);
    if number.Some? && ParseRootKind(number.value).Some? {
      var kind := ParseRootKind(number.value).value;
      RootKindExact(number.value, kind);
      KindNumbers(kind);
      KindExact(tag, kind.Number());
    }
    if NamesSomeRootKind(tag) {
      var kind: RootKind :| NamesKind(tag, kind.Number());
      KindNumbers(kind);
      KindExact(tag, kind.Number());
      RootKindExact(kind.Number(), kind);
    }
  }

  lemma SomeoneNamed(g: Reader, tag: Tag)
    ensures NamesSomeone(g, tag) <==> ReadParticipant(g, tag).Some?
  {
    if ReadParticipant(g, tag).Some? {
      ParticipantExact(g, tag, ReadParticipant(g, tag).value);
    }
    if p: Participant :| NamesParticipant(g, tag, p) {
      ParticipantExact(g, tag, p);
    }
  }

  lemma EventRootTold(g: Reader, tag: Tag, kind: RootKind, author: Participant)
    ensures ReadEventRoot(g, tag, kind, author).Err? ==> ReadEventRoot(g, tag, kind, author) == Err(EventRootFault(tag))
  {
  }

  lemma AddressSpelled(g: Reader, tag: Tag)
    requires 2 <= |tag| <= 3
    ensures var r := ReadAddressReference(g, tag, RootReferenceShape, RootCoordinateInvalid);
            && (r.Ok? <==> SpellsSomeAddress(g, tag[1])) && (r.Err? ==> r == Err(RootCoordinateInvalid))
            && forall kind :: SpellsKind(g, tag[1], kind) <==> r.Ok? && r.value.kind == kind
  {
    var r := ReadAddressReference(g, tag, RootReferenceShape, RootCoordinateInvalid);
    if r.Ok? {
      AddressReferenceExact(g, tag, RootReferenceShape, RootCoordinateInvalid, r.value);
    }
    forall coordinate, kind, author | SpellsAddress(g, tag[1], coordinate, kind, author)
      ensures r.Ok? && r.value.kind == kind
    {
      RelayExact(g, tag, ReadRelay(g, tag));
      AddressReferenceExact(g, tag, RootReferenceShape, RootCoordinateInvalid,
                            AddressReference(coordinate, author, kind, ReadRelay(g, tag)));
    }
  }

  lemma AddressRootTold(g: Reader, tag: Tag, kind: RootKind, author: Participant)
    ensures ReadAddressRoot(g, tag, kind, author).Err? ==>
              ReadAddressRoot(g, tag, kind, author) == Err(AddressRootFault(g, tag, kind))
  {
    if 2 <= |tag| <= 3 {
      AddressSpelled(g, tag);
    }
  }

  /** The kind is told before the author, the author before the reference, and within the reference its shape, its
      text, its kind and its author in turn. */
  lemma RootTold(g: Reader, a: Authority)
    requires |a.eventRoots| + |a.addressRoots| == 1 && |a.rootKinds| == |a.rootAuthors| == 1
    ensures ReadRoot(g, a).Err? ==>
              if !NamesSomeRootKind(a.rootKinds[0]) then ReadRoot(g, a) == Err(RootKindUnsupported)
              else if !NamesSomeone(g, a.rootAuthors[0]) then ReadRoot(g, a) == Err(RootAuthorInvalid)
              else if a.eventRoots != [] then ReadRoot(g, a) == Err(EventRootFault(a.eventRoots[0]))
              else forall kind: RootKind | NamesKind(a.rootKinds[0], kind.Number()) ::
                     ReadRoot(g, a) == Err(AddressRootFault(g, a.addressRoots[0], kind))
  {
    RootKindRead(a.rootKinds[0]);
    SomeoneNamed(g, a.rootAuthors[0]);
    if NamesSomeRootKind(a.rootKinds[0]) && NamesSomeone(g, a.rootAuthors[0]) {
      var kind := ParseRootKind(ReadKind(a.rootKinds[0]).value).value;
      var author := ReadParticipant(g, a.rootAuthors[0]).value;
      if a.eventRoots != [] {
        EventRootTold(g, a.eventRoots[0], kind, author);
      } else {
        AddressRootTold(g, a.addressRoots[0], kind, author);
      }
      forall other: RootKind | NamesKind(a.rootKinds[0], other.Number())
        ensures other == kind
      {
        SameKind(a.rootKinds[0], other, kind);
      }
    }
  }

  lemma SameKind(tag: Tag, a: RootKind, b: RootKind)
    requires NamesKind(tag, a.Number()) && NamesKind(tag, b.Number())
    ensures a == b
  {
    KindNumbers(a);
    KindNumbers(b);
    KindExact(tag, a.Number());
    KindExact(tag, b.Number());
  }

  // ----- the position

  lemma ParentKindTold(tag: Tag, root: RootKind)
    ensures ReadParentKind(tag, root).Err? ==> ReadParentKind(tag, root) == Err(ParentKindInvalid)
    ensures ReadParentKind(tag, root).Ok? <==> NamesKind(tag, root.Number()) || NamesKind(tag, 1_111)
  {
    ParentKindExact(tag, root, root.Number());
    ParentKindExact(tag, root, 1_111);
    if ReadParentKind(tag, root).Ok? {
      ParentKindExact(tag, root, ReadParentKind(tag, root).value);
    }
  }

  /** The fault of the one parent event, apart from its author. */
  function ParentFault(events: seq<Tag>, addresses: seq<Tag>, mismatched: bool): Option<ProjectionError> {
    if |events| != 1 || addresses != [] then Some(ParentCardinality(|events|, |addresses|))
    else if !(2 <= |events[0]| <= 4) then Some(ParentReferenceShape)
    else if ParseId(events[0][1]).None? then Some(ParentEventIdInvalid)
    else if mismatched then Some(ParentMismatch)
    else None
  }

  /** The parent of a comment on an event, or of a reply, is told before its author. */
  lemma EventPositionTold(g: Reader, a: Authority, root: InboundRoot, kind: nat, ps: seq<Participant>)
    ensures root.EventRootRead? && ReadOnEvent(g, a, root, kind, ps).Err? ==>
              var other := |a.parentEvents| == 1 && |a.parentEvents[0]| >= 2 && ParseId(a.parentEvents[0][1]) != Some(root.eventId);
              var fault := ParentFault(a.parentEvents, a.parentAddresses, other);
              ReadOnEvent(g, a, root, kind, ps)
              == if fault.Some? then Err(fault.value) else if ps == [] then Err(ParentAuthorMissing) else Err(ParentAuthorMismatch)
    ensures ReadReply(g, a, root, kind, ps).Err? ==>
              var same := && root.EventRootRead? && |a.parentEvents| == 1 && |a.parentEvents[0]| >= 2
                          && ParseId(a.parentEvents[0][1]) == Some(root.eventId);
              var fault := ParentFault(a.parentEvents, a.parentAddresses, same);
              ReadReply(g, a, root, kind, ps)
              == if fault.Some? then Err(fault.value)
                 else if ps == [] then Err(ParentAuthorMissing)
                 else if ReadHint(g, a.parentEvents[0]).Some? then Err(ParentAuthorMismatch)
                 else Err(ParentAuthorAmbiguous)
  {
    if |a.parentEvents| == 1 {
      AuthorsTold(ps, root.author.pubkey, ReadHint(g, a.parentEvents[0]));
    }
  }

  /** A comment on an address: the counts, then the coordinate, then the revision, then the author. */
  lemma AddressPositionTold(g: Reader, a: Authority, root: InboundRoot, kind: nat, ps: seq<Participant>)
    requires root.AddressRootRead? && ReadOnAddress(g, a, root, kind, ps).Err?
    ensures var r := ReadOnAddress(g, a, root, kind, ps);
            if |a.parentAddresses| != 1 then r == Err(ParentCardinality(|a.parentEvents|, |a.parentAddresses|))
            else if |a.parentEvents| != 1 then r == Err(RevisionMissing(|a.parentEvents|))
            else
              var parent, revision := a.parentAddresses[0], a.parentEvents[0];
              if !(2 <= |parent| <= 3) then r == Err(ParentReferenceShape)
              else if !SpellsSomeAddress(g, parent[1]) then r == Err(ParentCoordinateInvalid)
              else if forall author, k :: !SpellsAddress(g, parent[1], root.coordinate, k, author) then r == Err(ParentMismatch)
              else if !(2 <= |revision| <= 3) then r == Err(RevisionShape)
              else if ParseId(revision[1]).None? then r == Err(RevisionEventIdInvalid)
              else r == if ps == [] then Err(ParentAuthorMissing) else Err(ParentAuthorMismatch)
  {
    AuthorsTold(ps, root.author.pubkey, None);
    if |a.parentAddresses| == 1 && 2 <= |a.parentAddresses[0]| <= 3 {
      ParentRead(g, a.parentAddresses[0], root.coordinate);
    }
  }

  lemma ParentRead(g: Reader, tag: Tag, coordinate: string)
    requires 2 <= |tag| <= 3
    ensures var r := ReadAddressReference(g, tag, ParentReferenceShape, ParentCoordinateInvalid);
            && (r.Ok? <==> SpellsSomeAddress(g, tag[1])) && (r.Err? ==> r == Err(ParentCoordinateInvalid))
            && (r.Ok? ==> (r.value.coordinate == coordinate <==>
                             exists author, kind :: SpellsAddress(g, tag[1], coordinate, kind, author)))
  {
    var r := ReadAddressReference(g, tag, ParentReferenceShape, ParentCoordinateInvalid);
    if r.Ok? {
      AddressReferenceExact(g, tag, ParentReferenceShape, ParentCoordinateInvalid, r.value);
    }
    forall c, kind, author | SpellsAddress(g, tag[1], c, kind, author)
      ensures r.Ok? && r.value.coordinate == c
    {
      RelayExact(g, tag, ReadRelay(g, tag));
      AddressReferenceExact(g, tag, ParentReferenceShape, ParentCoordinateInvalid,
                            AddressReference(c, author, kind, ReadRelay(g, tag)));
    }
  }

  // ----- the order of the stages

  /** The counts of the authority tags in turn, then the root, then the parent's kind, then the position. */
  lemma AuthorityTold(g: Reader, a: Authority)
    requires ReadAuthority(g, a).Err?
    ensures var r := ReadAuthority(g, a);
            if |a.eventRoots| + |a.addressRoots| != 1 then r == Err(RootCardinality(|a.eventRoots| + |a.addressRoots|))
            else if |a.rootKinds| != 1 then r == Err(RootKindCardinality(|a.rootKinds|))
            else if |a.rootAuthors| != 1 then r == Err(RootAuthorCardinality(|a.rootAuthors|))
            else if |a.parentKinds| != 1 then r == Err(ParentKindCardinality(|a.parentKinds|))
            else if ReadRoot(g, a).Err? then r == Err(ReadRoot(g, a).error)
            else if ReadParentKind(a.parentKinds[0], ReadRoot(g, a).value.kind).Err? then r == Err(ParentKindInvalid)
            else r == ReadPosition(g, a, ReadRoot(g, a).value, ReadParentKind(a.parentKinds[0], ReadRoot(g, a).value.kind).value)
  {
    if |a.parentKinds| == 1 && |a.eventRoots| + |a.addressRoots| == 1 && |a.rootKinds| == |a.rootAuthors| == 1
       && ReadRoot(g, a).Ok? {
      ParentKindTold(a.parentKinds[0], ReadRoot(g, a).value.kind);
    }
  }

  /** What is told before the authority tags are read. */
  lemma ProjectionTold(g: Reader, kind: nat, tags: seq<Tag>, content: string, createdAt: U64)
    ensures var r := Project(g, kind, tags, content, createdAt);
            if kind != 1_111 then r == Err(UnsupportedKind(kind))
            else if Blank(content) then r == Err(EmptyContent)
            else if Utf8Len(content) > 131_072 then r == Err(LargeContent(Utf8Len(content)))
            else if !WithinBudgets(CommentInbound.FIXED_BYTES, tags, content, |NatText(createdAt)|) then r == Err(OverBudget)
            else if Matching(tags, "I") != [] then r == Err(RootFormUnsupported)
            else if Matching(tags, "i") != [] then r == Err(ParentFormUnsupported)
            else r == ReadAuthority(g, AuthorityOf(tags))
  {
  }
}
