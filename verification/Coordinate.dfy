/** Event ids, public keys and NIP-01 coordinates as the readers parse them: crates/event/src/id.rs. */
module Coordinates {
  import opened Digits
  import opened Json
  import opened Results
  import opened Text

  const COORDINATE_MAX_BYTES: nat := 4 * 1024
  const U32_MAX: nat := 0xFFFF_FFFF

  // ----- hexadecimal identities

  function LowerHex(c: char): char {
    if 'A' <= c <= 'F' then (c as int + 32) as char else c
  }

  function LowerText(s: string): (r: string)
    ensures |r| == |s| && forall i :: 0 <= i < |s| ==> r[i] == LowerHex(s[i])
  {
    if s == "" then "" else [LowerHex(s[0])] + LowerText(s[1..])
  }

  /** `EventId::parse`: 64 hexadecimal digits of either case, kept in lower case. */
  function ParseId(s: string): (r: Option<string>)
    ensures r.Some? ==> HexIdentity(r.value, 64)
  {
    var id := LowerText(s);
    if HexIdentity(id, 64) then Some(id) else None
  }

  /** `PublicKey::from_hex`; `keyOk` stands for the curve. */
  function ParseKey(keyOk: string -> bool, s: string): Option<string> {
    var id := ParseId(s);
    if id.Some? && keyOk(id.value) then id else None
  }

  lemma ParseCanonicalId(s: string)
    requires HexIdentity(s, 64)
    ensures ParseId(s) == Some(s)
  {
    assert LowerText(s) == s;
  }

  /** Reading an id twice is reading it once, and case is all that reading may change. */
  lemma ParseIdExact(s: string, id: string)
    ensures ParseId(s) == Some(id) <==>
              |s| == 64 == |id| && forall i :: 0 <= i < 64 ==> IsHexDigit(id[i]) && (s[i] == id[i] || SameLetter(s[i], id[i]))
  {
    var lower := LowerText(s);
    if |s| == 64 == |id| && forall i :: 0 <= i < 64 ==> IsHexDigit(id[i]) && (s[i] == id[i] || SameLetter(s[i], id[i])) {
      assert lower == id;
    }
  }

  predicate SameLetter(upper: char, lower: char) {
    (upper, lower) in {('A', 'a'), ('B', 'b'), ('C', 'c'), ('D', 'd'), ('E', 'e'), ('F', 'f')}
  }

  // ----- numbers

  /** `str::parse::<u32>`: an optional plus sign and decimal digits. */
  function ParseU32(s: string): Option<nat> {
    var digits := if s != "" && s[0] == '+' then s[1..] else s;
    if digits == "" || !AllDigits(digits) || DigitsValue(digits) > U32_MAX then None else Some(DigitsValue(digits))
  }

  lemma ParsePrintedU32(n: nat)
    requires n <= U32_MAX
    ensures ParseU32(NatText(n)) == Some(n)
  {
    NatTextIsCanonical(n);
    assert IsDigit(NatText(n)[0]);
  }

  /** A number is read exactly from its canonical text behind zeros and at most one plus sign. */
  lemma ParseU32Exact(s: string, n: nat)
    ensures ParseU32(s) == Some(n) <==>
              n <= 4_294_967_295 && (ZeroPadded(s, n) || (s != "" && s[0] == '+' && ZeroPadded(s[1..], n)))
  {
    ZeroPaddedExact(s, n);
    if s != "" && s[0] == '+' {
      ZeroPaddedExact(s[1..], n);
    }
  }

  // ----- coordinates

  /** No whitespace and no control character. */
  predicate Visible(value: string) {
    forall i :: 0 <= i < |value| ==> !WhiteSpace(value[i]) && !Control(value[i])
  }

  /** `DTag::parse`. */
  predicate DTag(value: string) {
    value != "" && Utf8Len(value) <= 512 && Visible(value)
  }

  datatype Coordinate = Coordinate(kind: nat, pubkey: string, identifier: string)

  predicate Replaceable(kind: nat) {
    kind == 0 || kind == 3 || 10_000 <= kind <= 19_999
  }

  predicate Addressable(kind: nat) {
    30_000 <= kind <= 39_999
  }

  function CoordinateText(c: Coordinate): string {
    NatText(c.kind) + ":" + c.pubkey + ":" + c.identifier
  }

  /** What a parsed coordinate is known to be. */
  predicate ValidCoordinate(keyOk: string -> bool, c: Coordinate) {
    && (Addressable(c.kind) || (Replaceable(c.kind) && c.identifier == ""))
    && HexIdentity(c.pubkey, 64) && keyOk(c.pubkey)
  }

  /** The two splits at the first colon and at the next. */
  function SplitTwice(s: string): Option<(string, string, string)> {
    var i := IndexOf(s, ':');
    if i == |s| then None
    else
      var rest := s[i + 1..];
      var j := IndexOf(rest, ':');
      if j == |rest| then None else Some((s[..i], rest[..j], rest[j + 1..]))
  }

  lemma SplitJoined(a: string, b: string, c: string)
    requires ':' !in a && ':' !in b
    ensures SplitTwice(a + ":" + b + ":" + c) == Some((a, b, c))
  {
    var s, rest := a + ":" + b + ":" + c, b + ":" + c;
    FirstColon(s, |a|);
    assert s[|a| + 1..] == rest;
    FirstColon(rest, |b|);
    assert s[..|a|] == a && rest[..|b|] == b && rest[|b| + 1..] == c;
  }

  lemma FirstColon(s: string, k: nat)
    requires k < |s| && s[k] == ':' && forall i :: 0 <= i < k ==> s[i] != ':'
    ensures IndexOf(s, ':') == k
  {
    assert IndexOf(s, ':') <= k;
  }

  /** `Nip01Coordinate::parse`. */
  function ParseCoordinate(keyOk: string -> bool, s: string): Option<Coordinate> {
    if s == "" || Utf8Len(s) > COORDINATE_MAX_BYTES || SplitTwice(s).None? then None
    else
      var (kindText, keyText, identifier) := SplitTwice(s).value;
      var kind, key := ParseU32(kindText), ParseKey(keyOk, keyText);
      if kind.None? then None
      else if !Replaceable(kind.value) && !Addressable(kind.value) then None
      else if Replaceable(kind.value) && identifier != "" then None
      else if key.None? then None
      else Some(Coordinate(kind.value, key.value, identifier))
  }

  lemma NoColons(c: Coordinate)
    requires HexIdentity(c.pubkey, 64)
    ensures ':' !in NatText(c.kind) && ':' !in c.pubkey
  {
  }

  /** A canonical text reads back as its coordinate. */
  lemma ParseCanonical(keyOk: string -> bool, c: Coordinate)
    requires ValidCoordinate(keyOk, c) && Utf8Len(CoordinateText(c)) <= COORDINATE_MAX_BYTES
    ensures ParseCoordinate(keyOk, CoordinateText(c)) == Some(c)
  {
    NoColons(c);
    SplitJoined(NatText(c.kind), c.pubkey, c.identifier);
    ParsePrintedU32(c.kind);
    ParseCanonicalId(c.pubkey);
  }

  /** The three fields of a coordinate text. */
  ghost predicate Fields(s: string, a: string, b: string, c: string) {
    s == a + ":" + b + ":" + c && ':' !in a && ':' !in b
  }

  lemma SplitExact(s: string, a: string, b: string, c: string)
    ensures SplitTwice(s) == Some((a, b, c)) <==> Fields(s, a, b, c)
  {
    if Fields(s, a, b, c) {
      SplitJoined(a, b, c);
    }
    if SplitTwice(s) == Some((a, b, c)) {
      SplitParts(s);
    }
  }

  lemma SplitParts(s: string)
    requires SplitTwice(s).Some?
    ensures Fields(s, SplitTwice(s).value.0, SplitTwice(s).value.1, SplitTwice(s).value.2)
  {
    var a, rest := Cut(s);
    var b, c := Cut(rest);
    JoinThree(s, a, rest, b, c);
  }

  lemma Cut(s: string) returns (head: string, tail: string)
    requires IndexOf(s, ':') < |s|
    ensures head == s[..IndexOf(s, ':')] && tail == s[IndexOf(s, ':') + 1..]
    ensures s == head + (":" + tail) && ':' !in head
  {
    head, tail := s[..IndexOf(s, ':')], s[IndexOf(s, ':') + 1..];
  }

  lemma JoinThree(s: string, a: string, rest: string, b: string, c: string)
    requires s == a + (":" + rest) && rest == b + (":" + c)
    ensures s == a + ":" + b + ":" + c
  {
    assert a + (":" + (b + (":" + c))) == a + ":" + b + ":" + c;
  }

  /** A text spells a coordinate: its kind as a number, its key in either case, and its identifier as it stands. */
  ghost predicate Spells(keyOk: string -> bool, s: string, c: Coordinate) {
    exists a, b :: SpelledBy(keyOk, s, c, a, b)
  }

  ghost predicate SpelledBy(keyOk: string -> bool, s: string, c: Coordinate, kind: string, key: string) {
    && Fields(s, kind, key, c.identifier)
    && ParseU32(kind) == Some(c.kind) && ParseId(key) == Some(c.pubkey) && keyOk(c.pubkey)
  }

  /** A coordinate is read exactly from a spelling of at most 4096 bytes, of a replaceable kind without an
      identifier or of an addressable kind with any. */
  lemma ParseCoordinateExact(keyOk: string -> bool, s: string, c: Coordinate)
    ensures ParseCoordinate(keyOk, s) == Some(c) <==>
              && Utf8Len(s) <= 4096 && Spells(keyOk, s, c)
              && (30_000 <= c.kind <= 39_999
                  || ((c.kind == 0 || c.kind == 3 || 10_000 <= c.kind <= 19_999) && c.identifier == ""))
  {
    SpellsExact(keyOk, s, c);
  }

  lemma SpellsExact(keyOk: string -> bool, s: string, c: Coordinate)
    ensures Spells(keyOk, s, c) <==>
              && SplitTwice(s).Some? && ParseU32(SplitTwice(s).value.0) == Some(c.kind)
              && ParseKey(keyOk, SplitTwice(s).value.1) == Some(c.pubkey) && SplitTwice(s).value.2 == c.identifier
  {
    if SplitTwice(s).Some? {
      var (a, b, d) := SplitTwice(s).value;
      SplitExact(s, a, b, d);
      assert SpelledBy(keyOk, s, Coordinate(c.kind, c.pubkey, d), a, b) <==>
             ParseU32(a) == Some(c.kind) && ParseKey(keyOk, b) == Some(c.pubkey);
    }
    if Spells(keyOk, s, c) {
      var a, b :| SpelledBy(keyOk, s, c, a, b);
      SplitExact(s, a, b, c.identifier);
    }
  }

  lemma ParsedIsValid(keyOk: string -> bool, s: string, c: Coordinate)
    requires ParseCoordinate(keyOk, s) == Some(c)
    ensures ValidCoordinate(keyOk, c)
  {
  }

  /** Distinct coordinates have distinct texts. */
  lemma TextDetermines(a: Coordinate, b: Coordinate)
    requires HexIdentity(a.pubkey, 64) && HexIdentity(b.pubkey, 64) && CoordinateText(a) == CoordinateText(b)
    ensures a == b
  {
    NoColons(a);
    NoColons(b);
    SplitJoined(NatText(a.kind), a.pubkey, a.identifier);
    SplitJoined(NatText(b.kind), b.pubkey, b.identifier);
    NatTextIsCanonical(a.kind);
    NatTextIsCanonical(b.kind);
  }

  /** `AddressableCoordinateParts::parse`. */
  function ParseAddressable(keyOk: string -> bool, s: string): Option<Coordinate> {
    if SplitTwice(s).None? then None
    else
      var (kindText, keyText, identifier) := SplitTwice(s).value;
      var kind, key := ParseU32(kindText), ParseKey(keyOk, keyText);
      if kind.None? || key.None? || !DTag(identifier) then None
      else Some(Coordinate(kind.value, key.value, identifier))
  }

  /** A visible identifier of 1 to 512 bytes. */
  lemma DTagExact(value: string)
    ensures DTag(value) <==>
              && value != "" && Utf8Len(value) <= 512
              && forall c: char | c in value :: !WhiteSpace(c) && 32 <= c as int && !(127 <= c as int < 160)
  {
    assert forall i :: 0 <= i < |value| ==> value[i] in value;
  }

  /** The same spellings, of any kind, with such an identifier. */
  lemma ParseAddressableExact(keyOk: string -> bool, s: string, c: Coordinate)
    ensures ParseAddressable(keyOk, s) == Some(c) <==> Spells(keyOk, s, c) && DTag(c.identifier)
  {
    SpellsExact(keyOk, s, c);
  }
}
