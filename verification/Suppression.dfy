/** Which events a set of deletion requests suppresses: the evaluator of
    crates/event_codec/src/deletion/reconciliation_v1.rs. */
module Suppression {
  import opened Coordinates
  import opened DeletionInbound
  import opened Digits
  import opened Json
  import opened JsonReader
  import opened Lexicographic
  import opened Results
  import opened Tags
  import opened Text
  import Deletion

  /** A received request with what was projected from it. */
  datatype Request = Request(event: SignedEvent, projection: Projection)

  datatype Outcome = Visible | Suppressed

  datatype Reason =
    | DeletionRequestImmune
    | NoAuthorizedReference
    | RequestAuthorMismatch
    | AddressCutoffPrecedesTarget
    | EventIdReference
    | AddressReferenceAtOrBeforeCutoff
    | EventIdAndAddressReference

  datatype AddressEvidence = AddressEvidence(coordinate: Coordinate, cutoff: nat, requestId: string)

  datatype Decision = Decision(
    outcome: Outcome,
    reason: Reason,
    eventReference: Option<string>,
    addressReference: Option<AddressEvidence>)

  /** The coordinate under which an event can be addressed, if any. */
  function TargetCoordinate(keyOk: string -> bool, target: SignedEvent): Option<Coordinate> {
    if Replaceable(target.kind) then ParseCoordinate(keyOk, NatText(target.kind) + ":" + target.pubkey + ":")
    else if !Addressable(target.kind) || Matching(target.tags, "d") == [] || |Matching(target.tags, "d")[0]| < 2 then None
    else ParseCoordinate(keyOk, NatText(target.kind) + ":" + target.pubkey + ":" + Matching(target.tags, "d")[0][1])
  }

  predicate NamesId(target: SignedEvent, r: Request) {
    target.id in r.projection.events
  }

  predicate NamesCoordinate(c: Option<Coordinate>, r: Request) {
    c.Some? && c.value in r.projection.addresses
  }

  predicate Refers(target: SignedEvent, c: Option<Coordinate>, r: Request) {
    NamesId(target, r) || NamesCoordinate(c, r)
  }

  /** What the loop has found so far. */
  datatype Evidence = Evidence(event: Option<string>, address: Option<AddressEvidence>, unauthorized: bool)

  const NO_EVIDENCE := Evidence(None, None, false)

  /** A later cutoff wins, and among equal cutoffs the smaller request id. */
  predicate Better(cutoff: nat, id: string, current: AddressEvidence) {
    cutoff > current.cutoff || (cutoff == current.cutoff && LexLess(id, current.requestId))
  }

  function Weigh(target: SignedEvent, c: Option<Coordinate>, e: Evidence, r: Request): Evidence {
    if !Refers(target, c, r) then e
    else if r.event.pubkey != target.pubkey then e.(unauthorized := true)
    else
      var event := if NamesId(target, r) && (e.event.None? || LexLess(r.event.id, e.event.value)) then Some(r.event.id)
                   else e.event;
      var address := if NamesCoordinate(c, r) && (e.address.None? || Better(r.event.createdAt, r.event.id, e.address.value))
                     then Some(AddressEvidence(c.value, r.event.createdAt, r.event.id))
                     else e.address;
      Evidence(event, address, e.unauthorized)
  }

  function Gather(target: SignedEvent, c: Option<Coordinate>, requests: seq<Request>): Evidence {
    if requests == [] then NO_EVIDENCE
    else Weigh(target, c, Gather(target, c, requests[..|requests| - 1]), requests[|requests| - 1])
  }

  function Conclude(target: SignedEvent, e: Evidence): Decision {
    var applies := e.address.Some? && target.createdAt <= e.address.value.cutoff;
    if e.event.Some? && applies then Decision(Suppressed, EventIdAndAddressReference, e.event, e.address)
    else if e.event.Some? then Decision(Suppressed, EventIdReference, e.event, e.address)
    else if applies then Decision(Suppressed, AddressReferenceAtOrBeforeCutoff, e.event, e.address)
    else if e.address.Some? then Decision(Visible, AddressCutoffPrecedesTarget, e.event, e.address)
    else if e.unauthorized then Decision(Visible, RequestAuthorMismatch, e.event, e.address)
    else Decision(Visible, NoAuthorizedReference, e.event, e.address)
  }

  /** `evaluate_nip09_suppression_from_borrowed_requests_v1`. */
  function Evaluate(keyOk: string -> bool, target: SignedEvent, requests: seq<Request>): Decision {
    if target.kind == Deletion.KIND_DELETION_REQUEST then Decision(Visible, DeletionRequestImmune, None, None)
    else Conclude(target, Gather(target, TargetCoordinate(keyOk, target), requests))
  }

  method EvaluateSuppression(keyOk: string -> bool, target: SignedEvent, requests: seq<Request>) returns (d: Decision)
    ensures d == Evaluate(keyOk, target, requests)
  {
    if target.kind == Deletion.KIND_DELETION_REQUEST {
      return Decision(Visible, DeletionRequestImmune, None, None);
    }
    var c := TargetCoordinate(keyOk, target);
    var event: Option<string> := None;
    var address: Option<AddressEvidence> := None;
    var unauthorized := false;
    for i := 0 to |requests|
      invariant Gather(target, c, requests[..i]) == Evidence(event, address, unauthorized)
    {
      var r := requests[i];
      assert requests[..i + 1][..i] == requests[..i];
      if NamesId(target, r) || NamesCoordinate(c, r) {
        if r.event.pubkey != target.pubkey {
          unauthorized := true;
        } else {
          if NamesId(target, r) && (event.None? || LexLess(r.event.id, event.value)) {
            event := Some(r.event.id);
          }
          if NamesCoordinate(c, r) && (address.None? || Better(r.event.createdAt, r.event.id, address.value)) {
            address := Some(AddressEvidence(c.value, r.event.createdAt, r.event.id));
          }
        }
      }
    }
    assert requests[..|requests|] == requests;
    d := Conclude(target, Evidence(event, address, unauthorized));
  }

  // ----- the evidence, without the order of the requests

  predicate ById(target: SignedEvent, r: Request) {
    r.event.pubkey == target.pubkey && NamesId(target, r)
  }

  predicate ByCoordinate(target: SignedEvent, c: Option<Coordinate>, r: Request) {
    r.event.pubkey == target.pubkey && NamesCoordinate(c, r)
  }

  /** The least id among the requests that name the event itself. */
  ghost predicate LeastId(target: SignedEvent, requests: seq<Request>, found: Option<string>) {
    if found.None? then forall r | r in requests :: !ById(target, r)
    else
      && (exists r | r in requests :: ById(target, r) && r.event.id == found.value)
      && (forall r | r in requests && ById(target, r) :: !LexLess(r.event.id, found.value))
  }

  /** The latest cutoff among the requests that name the coordinate, and the least id at that cutoff. */
  ghost predicate LatestCutoff(target: SignedEvent, c: Option<Coordinate>, requests: seq<Request>,
                               found: Option<AddressEvidence>)
  {
    if found.None? then forall r | r in requests :: !ByCoordinate(target, c, r)
    else
      && c == Some(found.value.coordinate)
      && (exists r | r in requests :: ByCoordinate(target, c, r)
                                      && r.event.createdAt == found.value.cutoff && r.event.id == found.value.requestId)
      && (forall r | r in requests && ByCoordinate(target, c, r) :: !Better(r.event.createdAt, r.event.id, found.value))
  }

  ghost predicate ForeignReference(target: SignedEvent, c: Option<Coordinate>, requests: seq<Request>) {
    exists r | r in requests :: Refers(target, c, r) && r.event.pubkey != target.pubkey
  }

  ghost predicate EvidenceOf(target: SignedEvent, c: Option<Coordinate>, requests: seq<Request>, e: Evidence) {
    && LeastId(target, requests, e.event)
    && LatestCutoff(target, c, requests, e.address)
    && (e.unauthorized <==> ForeignReference(target, c, requests))
  }

  lemma {:induction false} GatherExact(target: SignedEvent, c: Option<Coordinate>, requests: seq<Request>)
    ensures EvidenceOf(target, c, requests, Gather(target, c, requests))
  {
    if requests != [] {
      var init, last := requests[..|requests| - 1], requests[|requests| - 1];
      GatherExact(target, c, init);
      assert requests == init + [last];
      var e, next := Gather(target, c, init), Gather(target, c, requests);
      LeastIdSnoc(target, c, init, last, e, next);
      LatestCutoffSnoc(target, c, init, last, e, next);
      assert last in requests;
    }
  }

  lemma {:induction false} LeastIdSnoc(target: SignedEvent, c: Option<Coordinate>, init: seq<Request>, last: Request,
                                       e: Evidence, next: Evidence)
    requires LeastId(target, init, e.event) && next == Weigh(target, c, e, last)
    ensures LeastId(target, init + [last], next.event)
  {
    var all := init + [last];
    assert forall r :: r in all <==> r in init || r == last;
    LexIrreflexive(last.event.id);
    if ById(target, last) && e.event.Some? && LexLess(last.event.id, e.event.value) {
      forall r | r in init && ById(target, r)
        ensures !LexLess(r.event.id, last.event.id)
      {
        if LexLess(r.event.id, last.event.id) {
          LexTransitive(r.event.id, last.event.id, e.event.value);
        }
      }
    }
  }

  lemma {:induction false} LatestCutoffSnoc(target: SignedEvent, c: Option<Coordinate>, init: seq<Request>, last: Request,
                                            e: Evidence, next: Evidence)
    requires LatestCutoff(target, c, init, e.address) && next == Weigh(target, c, e, last)
    ensures LatestCutoff(target, c, init + [last], next.address)
  {
    var all := init + [last];
    assert forall r :: r in all <==> r in init || r == last;
    LexIrreflexive(last.event.id);
    if ByCoordinate(target, c, last) && e.address.Some? && Better(last.event.createdAt, last.event.id, e.address.value) {
      forall r | r in init && ByCoordinate(target, c, r)
        ensures !Better(r.event.createdAt, r.event.id, next.address.value)
      {
        if Better(r.event.createdAt, r.event.id, next.address.value)
           && r.event.createdAt == last.event.createdAt == e.address.value.cutoff {
          LexTransitive(r.event.id, last.event.id, e.address.value.requestId);
        }
      }
    }
  }

  lemma {:induction false} EvidenceUnique(target: SignedEvent, c: Option<Coordinate>, a: seq<Request>, b: seq<Request>,
                                          e: Evidence, f: Evidence)
    requires forall r :: r in a <==> r in b
    requires EvidenceOf(target, c, a, e) && EvidenceOf(target, c, b, f)
    ensures e == f
  {
    if e.event.Some? && f.event.Some? {
      LexTotal(e.event.value, f.event.value);
    }
    if e.address.Some? && f.address.Some? {
      LexTotal(e.address.value.requestId, f.address.value.requestId);
    }
  }

  /** Neither the order of the requests nor repeating one changes the decision or its evidence. */
  lemma {:induction false} DecisionIgnoresOrder(keyOk: string -> bool, target: SignedEvent, a: seq<Request>, b: seq<Request>)
    requires forall r :: r in a <==> r in b
    ensures Evaluate(keyOk, target, a) == Evaluate(keyOk, target, b)
  {
    var c := TargetCoordinate(keyOk, target);
    GatherExact(target, c, a);
    GatherExact(target, c, b);
    EvidenceUnique(target, c, a, b, Gather(target, c, a), Gather(target, c, b));
  }

  /** The request, by the author of the target, names it by id, or by coordinate no earlier than it was created. */
  predicate Deletes(c: Option<Coordinate>, target: SignedEvent, r: Request) {
    && r.event.pubkey == target.pubkey
    && (target.id in r.projection.events
        || (c.Some? && c.value in r.projection.addresses && target.createdAt <= r.event.createdAt))
  }

  /** An event is suppressed exactly when it is not itself a deletion request and some request deletes it. */
  lemma {:induction false} SuppressedExactly(keyOk: string -> bool, target: SignedEvent, requests: seq<Request>)
    ensures Evaluate(keyOk, target, requests).outcome.Suppressed? <==>
              target.kind != 5 && exists r | r in requests :: Deletes(TargetCoordinate(keyOk, target), target, r)
  {
    var c := TargetCoordinate(keyOk, target);
    var e := Gather(target, c, requests);
    GatherExact(target, c, requests);
    if e.event.Some? {
      var r :| r in requests && ById(target, r) && r.event.id == e.event.value;
      assert Deletes(c, target, r);
    }
    if e.address.Some? && target.createdAt <= e.address.value.cutoff {
      var r :| r in requests && ByCoordinate(target, c, r) && r.event.createdAt == e.address.value.cutoff;
      assert Deletes(c, target, r);
    }
    forall r | r in requests && Deletes(c, target, r)
      ensures e.event.Some? || (e.address.Some? && target.createdAt <= e.address.value.cutoff)
    {
      assert ById(target, r) || ByCoordinate(target, c, r);
    }
  }

  ghost predicate SomeById(target: SignedEvent, requests: seq<Request>) {
    exists r | r in requests :: ById(target, r)
  }

  ghost predicate SomeByCoordinate(target: SignedEvent, c: Option<Coordinate>, requests: seq<Request>, since: nat) {
    exists r | r in requests :: ByCoordinate(target, c, r) && since <= r.event.createdAt
  }

  /** The reason tells which references there are, whatever order they come in. */
  lemma {:induction false} ReasonsExact(keyOk: string -> bool, target: SignedEvent, requests: seq<Request>)
    requires target.kind != 5
    ensures var c := TargetCoordinate(keyOk, target);
            var named, inTime := SomeById(target, requests), SomeByCoordinate(target, c, requests, target.createdAt);
            Evaluate(keyOk, target, requests).reason
            == if named && inTime then EventIdAndAddressReference
               else if named then EventIdReference
               else if inTime then AddressReferenceAtOrBeforeCutoff
               else if SomeByCoordinate(target, c, requests, 0) then AddressCutoffPrecedesTarget
               else if ForeignReference(target, c, requests) then RequestAuthorMismatch
               else NoAuthorizedReference
  {
    var c := TargetCoordinate(keyOk, target);
    GatherExact(target, c, requests);
    var e := Gather(target, c, requests);
    if e.address.Some? {
      var r :| r in requests && ByCoordinate(target, c, r) && r.event.createdAt == e.address.value.cutoff;
      assert target.createdAt <= e.address.value.cutoff ==> SomeByCoordinate(target, c, requests, target.createdAt);
      assert SomeByCoordinate(target, c, requests, 0);
    }
  }

  /** End to end: a request authored for some targets, written out, signed and received, suppresses exactly its
      author's events that it names by id, or by coordinate and created no later than the request. */
  lemma {:induction false} AuthoredDeletes(keyOk: string -> bool, content: string, events: seq<Deletion.EventTarget>,
                                           addresses: seq<Deletion.AddressTarget>, r: Deletion.Request,
                                           request: SignedEvent, target: SignedEvent)
    requires Deletion.Author(content, events, addresses) == Ok(r) && AllCoordinates(keyOk, addresses)
    requires request.kind == 5 && request.tags == Deletion.WireTags(r) && request.content == r.content
    requires request.createdAt <= U64_MAX
    ensures var p := Project(keyOk, request.kind, request.tags, request.content, request.createdAt);
            && p.Ok?
            && (Evaluate(keyOk, target, [Request(request, p.value)]).outcome.Suppressed? <==>
                  && target.kind != 5 && target.pubkey == request.pubkey
                  && (EventGiven(events, target.id)
                      || (AddressedBy(keyOk, target, addresses) && target.createdAt <= request.createdAt)))
  {
    AuthoredProjects(keyOk, content, events, addresses, r, request.createdAt);
    var p := Project(keyOk, request.kind, request.tags, request.content, request.createdAt).value;
    SuppressedExactly(keyOk, target, [Request(request, p)]);
    assert Request(request, p) in [Request(request, p)];
    AddressedExactly(keyOk, target, addresses, p);
  }

  /** One of the targets is the canonical text of the event's coordinate. */
  ghost predicate AddressedBy(keyOk: string -> bool, target: SignedEvent, addresses: seq<Deletion.AddressTarget>) {
    var c := TargetCoordinate(keyOk, target);
    c.Some? && exists t | t in addresses :: t.text == CoordinateText(c.value)
  }

  lemma {:induction false} AddressedExactly(keyOk: string -> bool, target: SignedEvent,
                                            addresses: seq<Deletion.AddressTarget>, p: Projection)
    requires AllCoordinates(keyOk, addresses)
    requires forall c :: c in p.addresses <==> AddressGiven(keyOk, addresses, c)
    ensures var c := TargetCoordinate(keyOk, target);
            AddressedBy(keyOk, target, addresses) <==> c.Some? && c.value in p.addresses
  {
    var c := TargetCoordinate(keyOk, target);
    if AddressedBy(keyOk, target, addresses) {
      var t :| t in addresses && t.text == CoordinateText(c.value);
      var d :| IsTarget(keyOk, d, t);
      CoordinateIsValid(keyOk, target, c.value);
      TextDetermines(c.value, d);
      assert AddressGiven(keyOk, addresses, c.value);
    }
    if c.Some? && c.value in p.addresses {
      var t :| t in addresses && IsTarget(keyOk, c.value, t);
    }
  }

  lemma CoordinateIsValid(keyOk: string -> bool, target: SignedEvent, c: Coordinate)
    requires TargetCoordinate(keyOk, target) == Some(c)
    ensures ValidCoordinate(keyOk, c)
  {
    if Replaceable(target.kind) {
      ParsedIsValid(keyOk, NatText(target.kind) + ":" + target.pubkey + ":", c);
    } else {
      ParsedIsValid(keyOk, NatText(target.kind) + ":" + target.pubkey + ":" + Matching(target.tags, "d")[0][1], c);
    }
  }

  /** The coordinate of an event is its own kind, its own author and, when addressable, its first d tag. */
  lemma CoordinateOfEvent(keyOk: string -> bool, target: SignedEvent, c: Coordinate)
    requires HexIdentity(target.pubkey, 64) && keyOk(target.pubkey)
    ensures TargetCoordinate(keyOk, target) == Some(c) <==>
              && c.kind == target.kind && c.pubkey == target.pubkey && Utf8Len(CoordinateText(c)) <= 4096
              && (if Replaceable(target.kind) then c.identifier == ""
                  else Addressable(target.kind) && Matching(target.tags, "d") != []
                       && |Matching(target.tags, "d")[0]| >= 2 && c.identifier == Matching(target.tags, "d")[0][1])
  {
    var identifier := if Replaceable(target.kind) || Matching(target.tags, "d") == [] || |Matching(target.tags, "d")[0]| < 2
                      then "" else Matching(target.tags, "d")[0][1];
    var own := Coordinate(target.kind, target.pubkey, identifier);
    if Replaceable(target.kind) || Addressable(target.kind) {
      OwnText(keyOk, own);
      assert CoordinateText(Coordinate(target.kind, target.pubkey, "")) == NatText(target.kind) + ":" + target.pubkey + ":";
    }
  }

  lemma OwnText(keyOk: string -> bool, c: Coordinate)
    requires ValidCoordinate(keyOk, c)
    ensures ParseCoordinate(keyOk, CoordinateText(c)) == if Utf8Len(CoordinateText(c)) <= 4096 then Some(c) else None
  {
    if Utf8Len(CoordinateText(c)) <= 4096 {
      ParseCanonical(keyOk, c);
    }
  }
}
