/** Upload authorization claims of crates/blossom/src/authorization.rs. */
module Authorization {
  import opened Digits
  import opened Hashes
  import opened Json
  import opened Results
  import opened Tags
  import opened Text

  const MAX_CREATED_AGE_SECONDS: nat := 300
  const MAX_HORIZON_SECONDS: nat := 300

  datatype AuthorizationError =
    | InvalidContent
    | DuplicateActionTag
    | MalformedActionTag
    | DuplicateExpirationTag
    | MalformedExpirationTag
    | MalformedServerTag
    | MalformedHashTag
    | MissingActionTag
    | MissingExpirationTag
    | InvalidCreatedAge
    | CreatedInFuture
    | Stale
    | InvalidLifetime
    | Expired
    | ActionMismatch
    | ServerRequired
    | ServerMismatch
    | HashRequired
    | HashMismatch
    | TimestampOverflow

  datatype Action = Get | Upload | List | Delete | Media

  function ParseAction(value: string): Option<Action> {
    if value == "get" then Some(Get)
    else if value == "upload" then Some(Upload)
    else if value == "list" then Some(List)
    else if value == "delete" then Some(Delete)
    else if value == "media" then Some(Media)
    else None
  }

  // ----- parsing a claim

  /** The four accumulators of the parsing loop. */
  datatype Fields = Fields(action: Option<Action>, expiration: Option<U64>, servers: seq<string>, hashes: seq<Sha256>)

  const NO_FIELDS := Fields(None, None, [], [])

  datatype Claim = Claim(
    content: string,
    createdAt: U64,
    action: Action,
    expiration: U64,
    servers: seq<string>,
    hashes: seq<Sha256>)

  /** One tag of the loop; `domainOk` stands for the server domain grammar. */
  function ReadTag(domainOk: string -> bool, f: Fields, tag: Tag): Result<Fields, AuthorizationError> {
    if HasKey(tag, "t") then
      if f.action.Some? then Err(DuplicateActionTag)
      else if |tag| < 2 || ParseAction(tag[1]).None? then Err(MalformedActionTag)
      else Ok(f.(action := ParseAction(tag[1])))
    else if HasKey(tag, "expiration") then
      if f.expiration.Some? then Err(DuplicateExpirationTag)
      else if |tag| < 2 || ParseU64(tag[1]).None? then Err(MalformedExpirationTag)
      else Ok(f.(expiration := ParseU64(tag[1])))
    else if HasKey(tag, "server") then
      if |tag| < 2 || !domainOk(tag[1]) then Err(MalformedServerTag)
      else Ok(f.(servers := f.servers + [tag[1]]))
    else if HasKey(tag, "x") then
      if |tag| < 2 || FromHex(tag[1]).Err? then Err(MalformedHashTag)
      else Ok(f.(hashes := f.hashes + [FromHex(tag[1]).value]))
    else Ok(f)
  }

  function ReadTags(domainOk: string -> bool, f: Fields, tags: seq<Tag>): Result<Fields, AuthorizationError>
    decreases |tags|
  {
    if tags == [] then Ok(f)
    else
      var next :- ReadTag(domainOk, f, tags[0]);
      ReadTags(domainOk, next, tags[1..])
  }

  function ToClaim(content: string, createdAt: U64, f: Fields): Result<Claim, AuthorizationError> {
    if f.action.None? then Err(MissingActionTag)
    else if f.expiration.None? then Err(MissingExpirationTag)
    else Ok(Claim(content, createdAt, f.action.value, f.expiration.value, f.servers, f.hashes))
  }

  /** `AuthorizationClaim::parse`; `contentOk` stands for the content rules. */
  function ParseClaim(contentOk: string -> bool, domainOk: string -> bool,
                      content: string, createdAt: U64, tags: seq<Tag>): Result<Claim, AuthorizationError>
  {
    if !contentOk(content) then Err(InvalidContent)
    else
      var fields :- ReadTags(domainOk, NO_FIELDS, tags);
      ToClaim(content, createdAt, fields)
  }

  lemma {:induction false} ReadTagsSnoc(domainOk: string -> bool, f: Fields, tags: seq<Tag>, last: Tag)
    ensures ReadTags(domainOk, f, tags + [last])
         == match ReadTags(domainOk, f, tags)
            case Ok(g) => ReadTag(domainOk, g, last)
            case Err(e) => Err(e)
    decreases |tags|
  {
    if tags == [] {
      assert [last][1..] == [];
    } else {
      assert (tags + [last])[1..] == tags[1..] + [last];
      var next := ReadTag(domainOk, f, tags[0]);
      if next.Ok? {
        ReadTagsSnoc(domainOk, next.value, tags[1..], last);
      }
    }
  }

  /** A loop stopped by an error stays stopped. */
  lemma {:induction false} ReadTagsStops(domainOk: string -> bool, f: Fields, tags: seq<Tag>, more: seq<Tag>)
    requires ReadTags(domainOk, f, tags).Err?
    ensures ReadTags(domainOk, f, tags + more) == ReadTags(domainOk, f, tags)
    decreases |tags|
  {
    assert (tags + more)[1..] == tags[1..] + more;
    var next := ReadTag(domainOk, f, tags[0]);
    if next.Ok? {
      ReadTagsStops(domainOk, next.value, tags[1..], more);
    }
  }

  /** One turn of the loop either moves to the next prefix or decides the whole list. */
  lemma Advance(domainOk: string -> bool, init: seq<Tag>, tag: Tag, rest: seq<Tag>, f: Fields)
    requires ReadTags(domainOk, NO_FIELDS, init) == Ok(f)
    ensures ReadTags(domainOk, NO_FIELDS, init + [tag]) == ReadTag(domainOk, f, tag)
    ensures ReadTag(domainOk, f, tag).Err? ==>
              ReadTags(domainOk, NO_FIELDS, init + [tag] + rest) == ReadTag(domainOk, f, tag)
  {
    ReadTagsSnoc(domainOk, NO_FIELDS, init, tag);
    if ReadTag(domainOk, f, tag).Err? {
      ReadTagsStops(domainOk, NO_FIELDS, init + [tag], rest);
    }
  }

  method Parse(contentOk: string -> bool, domainOk: string -> bool,
               content: string, createdAt: U64, tags: seq<Tag>)
    returns (r: Result<Claim, AuthorizationError>)
    ensures r == ParseClaim(contentOk, domainOk, content, createdAt, tags)
  {
    if !contentOk(content) {
      return Err(InvalidContent);
    }
    var action: Option<Action> := None;
    var expiration: Option<U64> := None;
    var servers: seq<string> := [];
    var hashes: seq<Sha256> := [];
    for i := 0 to |tags|
      invariant ReadTags(domainOk, NO_FIELDS, tags[..i]) == Ok(Fields(action, expiration, servers, hashes))
    {
      var tag := tags[i];
      Advance(domainOk, tags[..i], tag, tags[i + 1..], Fields(action, expiration, servers, hashes));
      assert tags[..i] + [tag] == tags[..i + 1] && tags[..i + 1] + tags[i + 1..] == tags;
      if HasKey(tag, "t") {
        if action.Some? {
          return Err(DuplicateActionTag);
        }
        if |tag| < 2 || ParseAction(tag[1]).None? {
          return Err(MalformedActionTag);
        }
        action := ParseAction(tag[1]);
      } else if HasKey(tag, "expiration") {
        if expiration.Some? {
          return Err(DuplicateExpirationTag);
        }
        if |tag| < 2 || ParseU64(tag[1]).None? {
          return Err(MalformedExpirationTag);
        }
        expiration := ParseU64(tag[1]);
      } else if HasKey(tag, "server") {
        if |tag| < 2 || !domainOk(tag[1]) {
          return Err(MalformedServerTag);
        }
        servers := servers + [tag[1]];
      } else if HasKey(tag, "x") {
        if |tag| < 2 {
          return Err(MalformedHashTag);
        }
        var hash := DecodeHex(tag[1]);
        if hash.Err? {
          return Err(MalformedHashTag);
        }
        hashes := hashes + [hash.value];
      }
    }
    assert tags[..|tags|] == tags;
    r := ToClaim(content, createdAt, Fields(action, expiration, servers, hashes));
  }

  // ----- what a parsed claim says about its tags

  predicate IsAction(tags: seq<Tag>, action: Option<Action>) {
    if action.None? then tags == []
    else |tags| == 1 && |tags[0]| >= 2 && ParseAction(tags[0][1]) == action
  }

  predicate IsExpiration(tags: seq<Tag>, expiration: Option<U64>) {
    if expiration.None? then tags == []
    else |tags| == 1 && |tags[0]| >= 2 && ParseU64(tags[0][1]) == expiration
  }

  predicate AreServers(domainOk: string -> bool, tags: seq<Tag>, servers: seq<string>) {
    && |tags| == |servers|
    && forall i :: 0 <= i < |tags| ==> |tags[i]| >= 2 && tags[i][1] == servers[i] && domainOk(servers[i])
  }

  predicate AreHashes(tags: seq<Tag>, hashes: seq<Sha256>) {
    && |tags| == |hashes|
    && forall i :: 0 <= i < |tags| ==> |tags[i]| >= 2 && FromHex(tags[i][1]) == Ok(hashes[i])
  }

  /** The fields name exactly the recognised tags: one action, one expiration, all servers and hashes in order. */
  predicate Describes(domainOk: string -> bool, tags: seq<Tag>, f: Fields) {
    && IsAction(Matching(tags, "t"), f.action)
    && IsExpiration(Matching(tags, "expiration"), f.expiration)
    && AreServers(domainOk, Matching(tags, "server"), f.servers)
    && AreHashes(Matching(tags, "x"), f.hashes)
  }

  lemma MatchingSnoc(tags: seq<Tag>, last: Tag, key: string)
    ensures Matching(tags + [last], key) == if HasKey(last, key) then Matching(tags, key) + [last] else Matching(tags, key)
  {
    MatchingConcat(tags, [last], key);
    assert [last][1..] == [];
  }

  /** The loop succeeds exactly with the fields that describe the tags read so far. */
  lemma {:induction false} ReadExactly(domainOk: string -> bool, tags: seq<Tag>, f: Fields)
    ensures ReadTags(domainOk, NO_FIELDS, tags) == Ok(f) <==> Describes(domainOk, tags, f)
    decreases |tags|
  {
    if tags != [] {
      var init, last := tags[..|tags| - 1], tags[|tags| - 1];
      assert tags == init + [last];
      ReadTagsSnoc(domainOk, NO_FIELDS, init, last);
      if ReadTags(domainOk, NO_FIELDS, tags) == Ok(f) {
        var g := ReadTags(domainOk, NO_FIELDS, init).value;
        ReadExactly(domainOk, init, g);
        StepDescribes(domainOk, init, last, g, f);
      }
      if Describes(domainOk, tags, f) {
        var g := Before(f, last);
        DescribedBefore(domainOk, init, last, f);
        ReadExactly(domainOk, init, g);
      }
    }
  }

  lemma StepDescribes(domainOk: string -> bool, init: seq<Tag>, last: Tag, g: Fields, f: Fields)
    requires Describes(domainOk, init, g) && ReadTag(domainOk, g, last) == Ok(f)
    ensures Describes(domainOk, init + [last], f)
  {
    MatchingSnoc(init, last, "t");
    MatchingSnoc(init, last, "expiration");
    MatchingSnoc(init, last, "server");
    MatchingSnoc(init, last, "x");
  }

  /** The fields before `last` was read. */
  function Before(f: Fields, last: Tag): Fields {
    if HasKey(last, "t") then f.(action := None)
    else if HasKey(last, "expiration") then f.(expiration := None)
    else if HasKey(last, "server") then f.(servers := if f.servers == [] then [] else f.servers[..|f.servers| - 1])
    else if HasKey(last, "x") then f.(hashes := if f.hashes == [] then [] else f.hashes[..|f.hashes| - 1])
    else f
  }

  lemma DescribedBefore(domainOk: string -> bool, init: seq<Tag>, last: Tag, f: Fields)
    requires Describes(domainOk, init + [last], f)
    ensures Describes(domainOk, init, Before(f, last)) && ReadTag(domainOk, Before(f, last), last) == Ok(f)
  {
    MatchingSnoc(init, last, "t");
    MatchingSnoc(init, last, "expiration");
    MatchingSnoc(init, last, "server");
    MatchingSnoc(init, last, "x");
    if HasKey(last, "server") {
      LastServer(domainOk, Matching(init, "server"), last, f.servers);
    } else if HasKey(last, "x") {
      LastHash(Matching(init, "x"), last, f.hashes);
    }
  }

  lemma LastServer(domainOk: string -> bool, tags: seq<Tag>, last: Tag, servers: seq<string>)
    requires AreServers(domainOk, tags + [last], servers)
    ensures |servers| > 0 && |last| >= 2 && domainOk(last[1])
    ensures servers == servers[..|servers| - 1] + [last[1]] && AreServers(domainOk, tags, servers[..|servers| - 1])
  {
    assert (tags + [last])[|tags|] == last;
    assert forall i :: 0 <= i < |tags| ==> (tags + [last])[i] == tags[i];
  }

  lemma LastHash(tags: seq<Tag>, last: Tag, hashes: seq<Sha256>)
    requires AreHashes(tags + [last], hashes)
    ensures |hashes| > 0 && |last| >= 2 && FromHex(last[1]) == Ok(hashes[|hashes| - 1])
    ensures hashes == hashes[..|hashes| - 1] + [hashes[|hashes| - 1]] && AreHashes(tags, hashes[..|hashes| - 1])
  {
    assert (tags + [last])[|tags|] == last;
    assert forall i :: 0 <= i < |tags| ==> (tags + [last])[i] == tags[i];
  }

  /** Parsing succeeds exactly when the claim describes the tags; everything else in the list is ignored. */
  lemma ParsedExactly(contentOk: string -> bool, domainOk: string -> bool,
                      content: string, createdAt: U64, tags: seq<Tag>, claim: Claim)
    ensures ParseClaim(contentOk, domainOk, content, createdAt, tags) == Ok(claim)
       <==> && contentOk(content) && claim.content == content && claim.createdAt == createdAt
            && Describes(domainOk, tags, Fields(Some(claim.action), Some(claim.expiration), claim.servers, claim.hashes))
  {
    ReadExactly(domainOk, tags, Fields(Some(claim.action), Some(claim.expiration), claim.servers, claim.hashes));
  }

  /** What is wrong with a tag after the tags before it, if anything. */
  function TagFault(domainOk: string -> bool, before: seq<Tag>, tag: Tag): Option<AuthorizationError> {
    if tag == [] then None
    else if tag[0] == "t" then
      if Matching(before, "t") != [] then Some(DuplicateActionTag)
      else if |tag| >= 2 && tag[1] in {"get", "upload", "list", "delete", "media"} then None
      else Some(MalformedActionTag)
    else if tag[0] == "expiration" then
      if Matching(before, "expiration") != [] then Some(DuplicateExpirationTag)
      else if |tag| >= 2 && ParseU64(tag[1]).Some? then None
      else Some(MalformedExpirationTag)
    else if tag[0] == "server" then
      if |tag| >= 2 && domainOk(tag[1]) then None else Some(MalformedServerTag)
    else if tag[0] == "x" then
      if |tag| >= 2 && FromHex(tag[1]).Ok? then None else Some(MalformedHashTag)
    else None
  }

  lemma TagFaultReported(domainOk: string -> bool, before: seq<Tag>, f: Fields, tag: Tag)
    requires ReadTags(domainOk, NO_FIELDS, before) == Ok(f)
    ensures ReadTag(domainOk, f, tag).Ok? <==> TagFault(domainOk, before, tag).None?
    ensures ReadTag(domainOk, f, tag).Err? ==> TagFault(domainOk, before, tag) == Some(ReadTag(domainOk, f, tag).error)
  {
    ReadExactly(domainOk, before, f);
  }

  /** Every tag has nothing wrong with it after those before it. */
  ghost predicate Sound(domainOk: string -> bool, tags: seq<Tag>) {
    forall i :: 0 <= i < |tags| ==> TagFault(domainOk, tags[..i], tags[i]).None?
  }

  lemma {:induction false} SoundIsRead(domainOk: string -> bool, tags: seq<Tag>)
    requires Sound(domainOk, tags)
    ensures ReadTags(domainOk, NO_FIELDS, tags).Ok?
    decreases |tags|
  {
    if tags != [] {
      var init, last := tags[..|tags| - 1], tags[|tags| - 1];
      assert tags == init + [last];
      assert forall i :: 0 <= i < |init| ==> init[..i] == tags[..i];
      SoundIsRead(domainOk, init);
      ReadTagsSnoc(domainOk, NO_FIELDS, init, last);
      TagFaultReported(domainOk, init, ReadTags(domainOk, NO_FIELDS, init).value, last);
    }
  }

  /** The first faulty tag decides the error, and a missing tag is told only when every tag is sound. */
  lemma FirstFaultReported(contentOk: string -> bool, domainOk: string -> bool,
                           content: string, createdAt: U64, tags: seq<Tag>, k: nat)
    requires contentOk(content) && k <= |tags| && Sound(domainOk, tags[..k])
    ensures k < |tags| && TagFault(domainOk, tags[..k], tags[k]).Some? ==>
              ParseClaim(contentOk, domainOk, content, createdAt, tags) == Err(TagFault(domainOk, tags[..k], tags[k]).value)
    ensures k == |tags| ==>
              var parsed := ParseClaim(contentOk, domainOk, content, createdAt, tags);
              if Matching(tags, "t") == [] then parsed == Err(MissingActionTag)
              else if Matching(tags, "expiration") == [] then parsed == Err(MissingExpirationTag)
              else parsed.Ok?
  {
    var init := tags[..k];
    SoundIsRead(domainOk, init);
    var f := ReadTags(domainOk, NO_FIELDS, init).value;
    if k == |tags| {
      assert init == tags;
      ReadExactly(domainOk, tags, f);
    } else if TagFault(domainOk, init, tags[k]).Some? {
      TagFaultReported(domainOk, init, f, tags[k]);
      Advance(domainOk, init, tags[k], tags[k + 1..], f);
      assert tags == init + [tags[k]] + tags[k + 1..];
    }
  }

  // ----- validating a claim

  datatype Endpoint =
    | GetBlob(hash: Sha256)
    | UploadBlob(hash: Sha256)
    | ListBlobs
    | DeleteBlob(hash: Sha256)
    | MirrorBlob(hash: Sha256)
    | MediaBlob(hash: Sha256)

  function ActionOf(target: Endpoint): Action {
    match target
    case GetBlob(_) => Get
    case UploadBlob(_) => Upload
    case MirrorBlob(_) => Upload
    case ListBlobs => List
    case DeleteBlob(_) => Delete
    case MediaBlob(_) => Media
  }

  function ImpliedHash(target: Endpoint): Option<Sha256> {
    match target
    case ListBlobs => None
    case _ => Some(target.hash)
  }

  predicate RequiresHashTag(target: Endpoint) {
    !target.GetBlob? && !target.ListBlobs?
  }

  datatype ScopeRequirement = OptionalAnyMatch | RequiredAnyMatch

  datatype Validation = Validation(
    target: Endpoint,
    server: string,
    scope: ScopeRequirement,
    now: U64,
    maxCreatedAge: Option<U64>,
    maxLifetime: Option<U64>)

  function Bud11(target: Endpoint, server: string, now: U64): Validation {
    Validation(target, server, OptionalAnyMatch, now, None, None)
  }

  function NewValidation(target: Endpoint, server: string, scope: ScopeRequirement, now: U64, maxCreatedAge: U64)
    : Result<Validation, AuthorizationError>
  {
    if maxCreatedAge > MAX_CREATED_AGE_SECONDS then Err(InvalidCreatedAge)
    else Ok(Validation(target, server, scope, now, Some(maxCreatedAge), Some(MAX_HORIZON_SECONDS)))
  }

  function ServerFault(claim: Claim, v: Validation): Option<AuthorizationError> {
    if claim.servers == [] then
      match v.scope
      case OptionalAnyMatch => None
      case RequiredAnyMatch => Some(ServerRequired)
    else if v.server in claim.servers then None
    else Some(ServerMismatch)
  }

  function HashFault(claim: Claim, target: Endpoint): Option<AuthorizationError> {
    var implied := ImpliedHash(target);
    if implied.None? then None
    else if claim.hashes == [] then if RequiresHashTag(target) then Some(HashRequired) else None
    else if implied.value in claim.hashes then None
    else Some(HashMismatch)
  }

  /** `AuthorizationClaim::validate`: the first failed check, or none. */
  function Fault(claim: Claim, v: Validation): Option<AuthorizationError> {
    if claim.createdAt >= v.now then Some(CreatedInFuture)
    else if v.maxCreatedAge.Some? && v.now - claim.createdAt > v.maxCreatedAge.value then Some(Stale)
    else if claim.expiration <= claim.createdAt then Some(InvalidLifetime)
    else if v.maxLifetime.Some? && claim.expiration - claim.createdAt > v.maxLifetime.value then Some(InvalidLifetime)
    else if claim.expiration <= v.now then Some(Expired)
    else if claim.action != ActionOf(v.target) then Some(ActionMismatch)
    else if ServerFault(claim, v).Some? then ServerFault(claim, v)
    else HashFault(claim, v.target)
  }

  // ----- authoring an upload claim

  datatype WireParts = WireParts(kind: nat, createdAt: U64, tags: seq<Tag>, content: string)

  function UploadTags(server: string, hash: Sha256, expiration: U64): seq<Tag> {
    [["t", "upload"], ["expiration", NatText(expiration)], ["x", ToHex(hash)], ["server", server]]
  }

  /** `AuthoredUploadClaim::new`. */
  function AuthorUpload(content: string, server: string, hash: Sha256, createdAt: U64, lifetime: U64)
    : Result<WireParts, AuthorizationError>
  {
    if !(1 <= lifetime <= MAX_HORIZON_SECONDS) then Err(InvalidLifetime)
    else
      var expiration := CheckedU64(createdAt + lifetime);
      if expiration.None? then Err(TimestampOverflow)
      else Ok(WireParts(24_242, createdAt, UploadTags(server, hash, expiration.value), content))
  }

  /** The tags a claim parser looks at. */
  function Recognised(tags: seq<Tag>): seq<Tag> {
    if tags == [] then []
    else if IsRecognised(tags[0]) then [tags[0]] + Recognised(tags[1..])
    else Recognised(tags[1..])
  }

  predicate IsRecognised(tag: Tag) {
    HasKey(tag, "t") || HasKey(tag, "expiration") || HasKey(tag, "server") || HasKey(tag, "x")
  }

  /** Unrecognised tags change neither the fields read nor the error. */
  lemma {:induction false} UnrecognisedIgnored(domainOk: string -> bool, f: Fields, tags: seq<Tag>)
    ensures ReadTags(domainOk, f, tags) == ReadTags(domainOk, f, Recognised(tags))
    decreases |tags|
  {
    if tags != [] {
      var next := ReadTag(domainOk, f, tags[0]);
      if IsRecognised(tags[0]) {
        assert ([tags[0]] + Recognised(tags[1..]))[1..] == Recognised(tags[1..]);
        if next.Ok? {
          UnrecognisedIgnored(domainOk, next.value, tags[1..]);
        }
      } else {
        UnrecognisedIgnored(domainOk, f, tags[1..]);
      }
    }
  }

  lemma MatchingFour(a: Tag, b: Tag, c: Tag, d: Tag, key: string)
    ensures Matching([a, b, c, d], key)
         == (if HasKey(a, key) then [a] else []) + (if HasKey(b, key) then [b] else [])
            + (if HasKey(c, key) then [c] else []) + (if HasKey(d, key) then [d] else [])
  {
    assert [a, b, c, d] == [] + [a] + [b] + [c] + [d];
    MatchingSnoc([] + [a] + [b] + [c], d, key);
    MatchingSnoc([] + [a] + [b], c, key);
    MatchingSnoc([] + [a], b, key);
    MatchingSnoc([], a, key);
  }

  lemma UploadTagsDescribed(domainOk: string -> bool, server: string, hash: Sha256, expiration: U64)
    requires domainOk(server)
    ensures Describes(domainOk, UploadTags(server, hash, expiration),
                      Fields(Some(Upload), Some(expiration), [server], [hash]))
  {
    var t, e, x, s := ["t", "upload"], ["expiration", NatText(expiration)], ["x", ToHex(hash)], ["server", server];
    MatchingFour(t, e, x, s, "t");
    MatchingFour(t, e, x, s, "expiration");
    MatchingFour(t, e, x, s, "server");
    MatchingFour(t, e, x, s, "x");
    ParsePrintedU64(expiration);
    DecodeAfterEncode(hash);
  }

  /** An upload is authored exactly for a lifetime of 1 to 300 seconds that ends in range, under kind 24242 with its
      own content and time. */
  lemma UploadAuthoredExactly(content: string, server: string, hash: Sha256, createdAt: U64, lifetime: U64)
    ensures var parts := AuthorUpload(content, server, hash, createdAt, lifetime);
            && (parts.Ok? <==> 1 <= lifetime <= 300 && createdAt + lifetime <= 18_446_744_073_709_551_615)
            && (parts == Err(InvalidLifetime) <==> lifetime == 0 || lifetime > 300)
            && (parts.Ok? ==> (parts.value.kind, parts.value.createdAt, parts.value.content) == (24_242, createdAt, content))
  {
  }

  /** Authored tags parse back to the authored fields wherever unrecognised tags are inserted. */
  lemma AuthoredParses(contentOk: string -> bool, domainOk: string -> bool, content: string, server: string,
                       hash: Sha256, createdAt: U64, lifetime: U64, tags: seq<Tag>)
    requires contentOk(content) && domainOk(server)
    requires var parts := AuthorUpload(content, server, hash, createdAt, lifetime);
             parts.Ok? && Recognised(tags) == parts.value.tags
    ensures ParseClaim(contentOk, domainOk, content, createdAt, tags)
         == Ok(Claim(content, createdAt, Upload, createdAt + lifetime, [server], [hash]))
  {
    UnrecognisedIgnored(domainOk, NO_FIELDS, tags);
    UploadTagsDescribed(domainOk, server, hash, createdAt + lifetime);
    ReadExactly(domainOk, Recognised(tags), Fields(Some(Upload), Some(createdAt + lifetime), [server], [hash]));
  }

  /** End to end: an authored upload claim, with unrecognised tags inserted anywhere, parses, and at its own
      server for its own hash it validates exactly inside its time window. */
  lemma AuthoredValidates(contentOk: string -> bool, domainOk: string -> bool, content: string, server: string,
                          hash: Sha256, createdAt: U64, lifetime: U64, tags: seq<Tag>,
                          target: Endpoint, scope: ScopeRequirement, now: U64, age: U64)
    requires contentOk(content) && domainOk(server)
    requires var parts := AuthorUpload(content, server, hash, createdAt, lifetime);
             parts.Ok? && Recognised(tags) == parts.value.tags
    requires target == UploadBlob(hash) || target == MirrorBlob(hash)
    ensures var parsed := ParseClaim(contentOk, domainOk, content, createdAt, tags);
            && parsed.Ok?
            && (NewValidation(target, server, scope, now, age).Ok? <==> age <= 300)
            && (age <= 300 ==>
                  (Fault(parsed.value, NewValidation(target, server, scope, now, age).value).None?
                   <==> createdAt < now < createdAt + lifetime && now - createdAt <= age))
            && (Fault(parsed.value, Bud11(target, server, now)).None? <==> createdAt < now < createdAt + lifetime)
  {
    AuthoredParses(contentOk, domainOk, content, server, hash, createdAt, lifetime, tags);
    assert server in [server] && hash in [hash];
  }

  /** The wire text of the action an endpoint asks for. */
  predicate Permits(text: string, target: Endpoint) {
    match target
    case GetBlob(_) => text == "get"
    case UploadBlob(_) => text == "upload"
    case MirrorBlob(_) => text == "upload"
    case ListBlobs => text == "list"
    case DeleteBlob(_) => text == "delete"
    case MediaBlob(_) => text == "media"
  }

  /** From the tag to the endpoint: a claim is parsed only if its one action tag says one of five words, and it
      validates only at the endpoints of that word. */
  lemma ActionTextDecides(contentOk: string -> bool, domainOk: string -> bool,
                          content: string, createdAt: U64, tags: seq<Tag>, claim: Claim, v: Validation)
    requires ParseClaim(contentOk, domainOk, content, createdAt, tags) == Ok(claim)
    ensures |Matching(tags, "t")| == 1 && |Matching(tags, "t")[0]| >= 2
    ensures var text := Matching(tags, "t")[0][1];
            && text in {"get", "upload", "list", "delete", "media"}
            && (Fault(claim, v).None? ==> Permits(text, v.target))
            && (Fault(claim, v) == Some(ActionMismatch) ==> !Permits(text, v.target))
  {
    ParsedExactly(contentOk, domainOk, content, createdAt, tags, claim);
    WordsDiffer();
  }

  lemma WordsDiffer()
    ensures "get" != "upload" && "get" != "list" && "get" != "delete" && "get" != "media"
    ensures "upload" != "list" && "upload" != "delete" && "upload" != "media"
    ensures "list" != "delete" && "list" != "media" && "delete" != "media"
  {
    assert "upload"[0] != "delete"[0];
  }

  /** Each of the five words is read, whatever else the list holds. */
  lemma FiveActionsAccepted(domainOk: string -> bool, f: Fields, tag: Tag)
    requires HasKey(tag, "t") && f.action.None?
    ensures ReadTag(domainOk, f, tag).Ok? <==> |tag| >= 2 && tag[1] in {"get", "upload", "list", "delete", "media"}
    ensures ReadTag(domainOk, f, tag).Err? ==> ReadTag(domainOk, f, tag) == Err(MalformedActionTag)
  {
  }

  /** Validity is one window of seconds, the policy bounds and three scope matches. */
  lemma ValidExactly(claim: Claim, v: Validation)
    ensures Fault(claim, v).None? <==>
            && claim.createdAt < v.now < claim.expiration
            && (v.maxCreatedAge.Some? ==> v.now <= claim.createdAt + v.maxCreatedAge.value)
            && (v.maxLifetime.Some? ==> claim.expiration <= claim.createdAt + v.maxLifetime.value)
            && claim.action == ActionOf(v.target)
            && (v.server in claim.servers || (claim.servers == [] && v.scope.OptionalAnyMatch?))
            && (v.target.ListBlobs? || v.target.hash in claim.hashes || (claim.hashes == [] && v.target.GetBlob?))
  {
  }

  /** Which check is told when several fail: times before the action, the action before servers, servers before hashes. */
  lemma FaultTold(claim: Claim, v: Validation)
    ensures Fault(claim, v)
         == if v.now <= claim.createdAt then Some(CreatedInFuture)
            else if v.maxCreatedAge.Some? && claim.createdAt + v.maxCreatedAge.value < v.now then Some(Stale)
            else if claim.expiration <= claim.createdAt then Some(InvalidLifetime)
            else if v.maxLifetime.Some? && claim.createdAt + v.maxLifetime.value < claim.expiration then Some(InvalidLifetime)
            else if claim.expiration <= v.now then Some(Expired)
            else if !(match v.target
                      case GetBlob(_) => claim.action.Get?
                      case UploadBlob(_) => claim.action.Upload?
                      case MirrorBlob(_) => claim.action.Upload?
                      case ListBlobs => claim.action.List?
                      case DeleteBlob(_) => claim.action.Delete?
                      case MediaBlob(_) => claim.action.Media?) then Some(ActionMismatch)
            else if claim.servers == [] && v.scope.RequiredAnyMatch? then Some(ServerRequired)
            else if claim.servers != [] && v.server !in claim.servers then Some(ServerMismatch)
            else if v.target.ListBlobs? then None
            else if claim.hashes == [] then if v.target.GetBlob? then None else Some(HashRequired)
            else if v.target.hash !in claim.hashes then Some(HashMismatch)
            else None
    ensures forall age: U64 | age > 300 :: NewValidation(v.target, v.server, v.scope, v.now, age) == Err(InvalidCreatedAge)
  {
  }
}
