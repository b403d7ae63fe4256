/** Compact JSON text of a signed event: string escapes of section 7 of RFC 8259 in their
    shortest form, and the field order id, pubkey, created_at, kind, tags, content, sig. */
module Json {
  import opened Digits
  import opened Results
  import opened Sequences
  import opened Text

  const USIZE_MAX: nat := U64_MAX

  /** `saturating_add` on machine sizes. */
  function SaturatingAdd(a: nat, b: nat): nat {
    if a + b > USIZE_MAX then USIZE_MAX else a + b
  }

  // ----- strings

  function EscapeChar(c: char): string {
    if c == '\"' then "\\\""
    else if c == '\\' then "\\\\"
    else if c == '\U{0008}' then "\\b"
    else if c == '\t' then "\\t"
    else if c == '\n' then "\\n"
    else if c == '\U{000C}' then "\\f"
    else if c == '\r' then "\\r"
    else if c as int < 0x20 then "\\u00" + [HexDigit(c as int / 16), HexDigit(c as int % 16)]
    else [c]
  }

  /** Section 7 of RFC 8259: seven short escapes, the other controls as four hexadecimal digits, the rest as they are. */
  lemma EscapeTable(c: char)
    ensures EscapeChar('\"') == ['\\', '\"'] && EscapeChar('\\') == ['\\', '\\']
    ensures EscapeChar(8 as char) == ['\\', 'b'] && EscapeChar(9 as char) == ['\\', 't'] && EscapeChar(10 as char) == ['\\', 'n']
    ensures EscapeChar(12 as char) == ['\\', 'f'] && EscapeChar(13 as char) == ['\\', 'r']
    ensures c as int < 32 && c as int !in {8, 9, 10, 12, 13} ==>
              EscapeChar(c) == ['\\', 'u', '0', '0', "01"[c as int / 16], "0123456789abcdef"[c as int % 16]]
    ensures c as int >= 32 && c != '\"' && c != '\\' ==> EscapeChar(c) == [c]
  {
    DigitTable(c as int / 16 % 16);
    DigitTable(c as int % 16);
  }

  function Escape(s: string): string {
    if s == "" then "" else EscapeChar(s[0]) + Escape(s[1..])
  }

  function JsonString(s: string): string {
    "\"" + Escape(s) + "\""
  }

  /** The bytes one character takes in a canonical string, as both wire estimators count them. */
  function CharCost(c: char): nat {
    if c == '\"' || c == '\\' || c == '\U{0008}' || c == '\t' || c == '\n' || c == '\U{000C}' || c == '\r' then 2
    else if c as int <= 0x1F then 6
    else CharBytes(c)
  }

  function FoldCost(total: nat, s: string): nat
    decreases |s|
  {
    if s == "" then total else FoldCost(SaturatingAdd(total, CharCost(s[0])), s[1..])
  }

  function CanonicalStringBytes(value: string): nat {
    FoldCost(2, value)
  }

  lemma EscapeCharBytes(c: char)
    ensures Utf8Len(EscapeChar(c)) == CharCost(c) <= 6 * CharBytes(c)
  {
    var e := EscapeChar(c);
    if Ascii(e) {
      AsciiLength(e);
    } else {
      assert e == [c];
      assert e[1..] == "";
    }
  }

  lemma {:induction false} FoldCostExact(total: nat, s: string)
    requires total + 6 * Utf8Len(s) <= USIZE_MAX
    ensures FoldCost(total, s) == total + Utf8Len(Escape(s))
    ensures Utf8Len(Escape(s)) <= 6 * Utf8Len(s)
    decreases |s|
  {
    if s != "" {
      EscapeCharBytes(s[0]);
      FoldCostExact(total + CharCost(s[0]), s[1..]);
      Utf8LenConcat(EscapeChar(s[0]), Escape(s[1..]));
    }
  }

  /** The estimator counts the printed string exactly; its additions do not saturate. */
  lemma {:induction false} CanonicalStringBytesExact(value: string)
    requires 2 + 6 * Utf8Len(value) <= USIZE_MAX
    ensures CanonicalStringBytes(value) == Utf8Len(JsonString(value)) <= 2 + 6 * Utf8Len(value)
  {
    FoldCostExact(2, value);
    Utf8LenConcat("\"" + Escape(value), "\"");
    Utf8LenConcat("\"", Escape(value));
    AsciiLength("\"");
  }

  // ----- tags

  type Tag = seq<string>

  function JoinStrings(tag: Tag): string {
    if tag == [] then ""
    else if |tag| == 1 then JsonString(tag[0])
    else JoinStrings(tag[..|tag| - 1]) + "," + JsonString(tag[|tag| - 1])
  }

  function TagJson(tag: Tag): string {
    "[" + JoinStrings(tag) + "]"
  }

  function JoinTags(tags: seq<Tag>): string {
    if tags == [] then ""
    else if |tags| == 1 then TagJson(tags[0])
    else JoinTags(tags[..|tags| - 1]) + "," + TagJson(tags[|tags| - 1])
  }

  function TagsJson(tags: seq<Tag>): string {
    "[" + JoinTags(tags) + "]"
  }

  function TagCost(tag: Tag): int {
    Utf8Len(TagJson(tag))
  }

  function StringCost(s: string): int {
    Utf8Len(JsonString(s))
  }

  function Separators(n: nat): nat {
    if n == 0 then 0 else n - 1
  }

  lemma Bracketed(s: string)
    ensures Utf8Len("[" + s + "]") == 2 + Utf8Len(s)
  {
    Utf8LenConcat("[" + s, "]");
    Utf8LenConcat("[", s);
    AsciiLength("[");
    AsciiLength("]");
  }

  lemma CommaJoined(a: string, b: string)
    ensures Utf8Len(a + "," + b) == Utf8Len(a) + 1 + Utf8Len(b)
  {
    Utf8LenConcat(a + ",", b);
    Utf8LenConcat(a, ",");
    AsciiLength(",");
  }

  lemma SumBySnoc<T>(s: seq<T>, weight: T -> int)
    requires s != []
    ensures SumBy(s, weight) == SumBy(s[..|s| - 1], weight) + weight(s[|s| - 1])
  {
    var init, last := s[..|s| - 1], s[|s| - 1];
    assert s == init + [last];
    SumByConcat(init, [last], weight);
    assert [last][1..] == [];
  }

  lemma {:induction false} JoinStringsBytes(tag: Tag)
    ensures Utf8Len(JoinStrings(tag)) == SumBy(tag, StringCost) + Separators(|tag|)
  {
    if tag != [] {
      SumBySnoc(tag, StringCost);
      if |tag| > 1 {
        JoinStringsBytes(tag[..|tag| - 1]);
        CommaJoined(JoinStrings(tag[..|tag| - 1]), JsonString(tag[|tag| - 1]));
      }
    }
  }

  lemma TagJsonBytes(tag: Tag)
    ensures TagCost(tag) == 2 + SumBy(tag, StringCost) + Separators(|tag|)
  {
    JoinStringsBytes(tag);
    Bracketed(JoinStrings(tag));
  }

  lemma {:induction false} JoinTagsBytes(tags: seq<Tag>)
    ensures Utf8Len(JoinTags(tags)) == SumBy(tags, TagCost) + Separators(|tags|)
  {
    if tags != [] {
      SumBySnoc(tags, TagCost);
      if |tags| > 1 {
        JoinTagsBytes(tags[..|tags| - 1]);
        CommaJoined(JoinTags(tags[..|tags| - 1]), TagJson(tags[|tags| - 1]));
      }
    }
  }

  /** A tag list takes its brackets, its tags and one comma between neighbours. */
  lemma TagsJsonBytes(tags: seq<Tag>)
    ensures Utf8Len(TagsJson(tags)) == 2 + SumBy(tags, TagCost) + Separators(|tags|)
  {
    JoinTagsBytes(tags);
    Bracketed(JoinTags(tags));
  }

  /** Appending one tag costs its text and, unless it is the first, a comma. */
  lemma TagsJsonAppend(tags: seq<Tag>, tag: Tag)
    ensures Utf8Len(TagsJson(tags + [tag]))
         == Utf8Len(TagsJson(tags)) + (if |tags| > 0 then 1 else 0) + TagCost(tag)
  {
    TagsJsonBytes(tags);
    TagsJsonBytes(tags + [tag]);
    SumByConcat(tags, [tag], TagCost);
    assert [tag][1..] == [];
  }

  // ----- running size counters

  function ByteCount(s: string): int {
    Utf8Len(s)
  }

  function ElementCount(tag: Tag): int {
    |tag|
  }

  function ElementBytes(tag: Tag): int {
    SumBy(tag, ByteCount)
  }

  /** The counters both wire estimators thread through their tags. */
  datatype Meter = Meter(tagBytes: nat, tagsJsonBytes: nat, tagCount: nat)

  /** The counters describe exactly these tags. */
  ghost predicate Measures(m: Meter, tags: seq<Tag>) {
    && m.tagBytes == SumBy(tags, ElementBytes)
    && m.tagsJsonBytes == Utf8Len(TagsJson(tags))
    && m.tagCount == |tags|
  }

  lemma TagTotalsAppend(tags: seq<Tag>, tag: Tag)
    ensures SumBy(tags + [tag], ElementBytes) == SumBy(tags, ElementBytes) + SumBy(tag, ByteCount)
  {
    SumBySnoc(tags + [tag], ElementBytes);
    assert (tags + [tag])[..|tags|] == tags;
  }

  lemma StringTotalsAppend(tag: Tag, s: string)
    ensures SumBy(tag + [s], StringCost) == SumBy(tag, StringCost) + Utf8Len(JsonString(s))
    ensures SumBy(tag + [s], ByteCount) == SumBy(tag, ByteCount) + Utf8Len(s)
  {
    SumBySnoc(tag + [s], StringCost);
    SumBySnoc(tag + [s], ByteCount);
    assert (tag + [s])[..|tag|] == tag;
  }

  lemma EmptyMeasures()
    ensures Measures(Meter(0, 2, 0), [])
  {
    TagsJsonBytes([]);
  }

  // ----- signed events

  function SignedEventJson(id: string, pubkey: string, createdAt: nat, kind: nat, tags: seq<Tag>,
                           content: string, sig: string): string
  {
    EventHead(id, pubkey) + NatText(createdAt) + EventKind(kind) + TagsJson(tags)
    + (",\"content\":" + JsonString(content)) + EventSignature(sig)
  }

  function EventHead(id: string, pubkey: string): string {
    "{\"id\":\"" + id + "\",\"pubkey\":\"" + pubkey + "\",\"created_at\":"
  }

  function EventKind(kind: nat): string {
    ",\"kind\":" + NatText(kind) + ",\"tags\":"
  }

  function EventSignature(sig: string): string {
    ",\"sig\":\"" + sig + "\"}"
  }

  /** Everything but created_at, tags and content, when ids and keys are hex of the usual width. */
  function FixedBytes(kind: nat): nat {
    |"{\"id\":\""| + 64 + |"\",\"pubkey\":\""| + 64 + |"\",\"created_at\":"|
    + |",\"kind\":"| + |NatText(kind)| + |",\"tags\":"| + |",\"content\":"| + |",\"sig\":\""| + 128 + |"\"}"|
  }

  /** The lowercase hexadecimal text of an id, key or signature. */
  predicate HexIdentity(s: string, width: nat) {
    |s| == width && forall i :: 0 <= i < |s| ==> IsHexDigit(s[i])
  }

  lemma SixPieces(a: string, b: string, c: string, d: string, e: string, f: string)
    ensures Utf8Len(a + b + c + d + e + f)
         == Utf8Len(a) + Utf8Len(b) + Utf8Len(c) + Utf8Len(d) + Utf8Len(e) + Utf8Len(f)
  {
    Utf8LenConcat(a + b + c + d + e, f);
    Utf8LenConcat(a + b + c + d, e);
    Utf8LenConcat(a + b + c, d);
    Utf8LenConcat(a + b, c);
    Utf8LenConcat(a, b);
  }

  lemma HeadBytes(id: string, pubkey: string)
    requires HexIdentity(id, 64) && HexIdentity(pubkey, 64)
    ensures Utf8Len(EventHead(id, pubkey))
         == |"{\"id\":\""| + 64 + |"\",\"pubkey\":\""| + 64 + |"\",\"created_at\":"|
  {
    AsciiLength(EventHead(id, pubkey));
  }

  lemma KindBytes(kind: nat)
    ensures Utf8Len(EventKind(kind)) == |",\"kind\":"| + |NatText(kind)| + |",\"tags\":"|
  {
    AsciiLength(EventKind(kind));
  }

  lemma SignatureBytes(sig: string)
    requires HexIdentity(sig, 128)
    ensures Utf8Len(EventSignature(sig)) == |",\"sig\":\""| + 128 + |"\"}"|
  {
    AsciiLength(EventSignature(sig));
  }

  lemma {:induction false} ContentNameBytes(name: string)
    requires name == ",\"content\":"
    ensures Utf8Len(name) == 11
  {
    AsciiLength(name);
  }

  /** The exact printed size, as a function of the timestamp. */
  lemma SignedEventBytes(id: string, pubkey: string, createdAt: nat, kind: nat, tags: seq<Tag>,
                         content: string, sig: string)
    requires HexIdentity(id, 64) && HexIdentity(pubkey, 64) && HexIdentity(sig, 128)
    ensures Utf8Len(SignedEventJson(id, pubkey, createdAt, kind, tags, content, sig))
         == FixedBytes(kind) + |NatText(createdAt)| + Utf8Len(TagsJson(tags)) + Utf8Len(JsonString(content))
  {
    SixPieces(EventHead(id, pubkey), NatText(createdAt), EventKind(kind), TagsJson(tags),
              ",\"content\":" + JsonString(content), EventSignature(sig));
    Utf8LenConcat(",\"content\":", JsonString(content));
    HeadBytes(id, pubkey);
    KindBytes(kind);
    SignatureBytes(sig);
    ContentNameBytes(",\"content\":");
    NatTextBytes(createdAt);
  }

  /** Twenty digits are the most a 64-bit timestamp needs, and its maximum needs them. */
  lemma TimestampDigits(createdAt: U64)
    ensures |NatText(createdAt)| <= 20
    ensures |NatText(U64_MAX)| == 20
  {
    Pow10Table();
    Pow10Add(6, 6);
    Pow10Add(12, 6);
    Pow10Add(18, 1);
    Pow10Add(18, 2);
    NatTextLength(createdAt, 20);
    NatTextLength(U64_MAX, 20);
    NatTextLength(U64_MAX, 19);
  }

  /** The printed size at the largest timestamp, which is the most any timestamp gives. */
  function MaxSignedBytes(kind: nat, tags: seq<Tag>, content: string): nat {
    FixedBytes(kind) + 20 + Utf8Len(TagsJson(tags)) + Utf8Len(JsonString(content))
  }

  lemma SignedEventAtMost(id: string, pubkey: string, createdAt: U64, kind: nat, tags: seq<Tag>,
                          content: string, sig: string)
    requires HexIdentity(id, 64) && HexIdentity(pubkey, 64) && HexIdentity(sig, 128)
    ensures Utf8Len(SignedEventJson(id, pubkey, U64_MAX, kind, tags, content, sig)) == MaxSignedBytes(kind, tags, content)
    ensures Utf8Len(SignedEventJson(id, pubkey, createdAt, kind, tags, content, sig)) <= MaxSignedBytes(kind, tags, content)
  {
    SignedEventBytes(id, pubkey, U64_MAX, kind, tags, content, sig);
    SignedEventBytes(id, pubkey, createdAt, kind, tags, content, sig);
    TimestampDigits(createdAt);
  }
}
