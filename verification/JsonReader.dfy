/** A reader for the compact JSON of signed events, the inverse of the printer in module Json. */
module JsonReader {
  import opened Digits
  import opened Json
  import opened Results

  /** A value and the text after it. */
  datatype Read<T> = Failed | Got(value: T, rest: string)

  function Expect(literal: string, s: string): Option<string> {
    if literal <= s then Some(s[|literal|..]) else None
  }

  lemma ExpectLiteral(literal: string, rest: string)
    ensures Expect(literal, literal + rest) == Some(rest)
  {
  }

  // ----- strings

  function Unescaped(c: char): Option<char> {
    match c
    case '\"' => Some('\"')
    case '\\' => Some('\\')
    case 'b' => Some('\U{0008}')
    case 't' => Some('\t')
    case 'n' => Some('\n')
    case 'f' => Some('\U{000C}')
    case 'r' => Some('\r')
    case _ => None
  }

  function Prepend(c: char, r: Read<string>): (p: Read<string>)
    ensures p.Got? <==> r.Got?
    ensures p.Got? ==> p.rest == r.rest
  {
    if r.Failed? then Failed else Got([c] + r.value, r.rest)
  }

  /** The characters up to the closing quote, decoded. */
  function ReadChars(s: string): (r: Read<string>)
    ensures r.Got? ==> |r.rest| < |s|
    decreases |s|
  {
    if s == "" then Failed
    else if s[0] == '\"' then Got("", s[1..])
    else if s[0] == '\\' then
      if |s| >= 6 && s[1] == 'u' && s[2] == '0' && s[3] == '0' && IsHexDigit(s[4]) && IsHexDigit(s[5]) then
        Prepend((16 * HexValue(s[4]) + HexValue(s[5])) as char, ReadChars(s[6..]))
      else if |s| >= 2 && Unescaped(s[1]).Some? then Prepend(Unescaped(s[1]).value, ReadChars(s[2..]))
      else Failed
    else if s[0] as int < 0x20 then Failed
    else Prepend(s[0], ReadChars(s[1..]))
  }

  function ReadString(s: string): (r: Read<string>)
    ensures r.Got? ==> |r.rest| < |s|
  {
    if s == "" || s[0] != '\"' then Failed else ReadChars(s[1..])
  }

  lemma ReadEscapedChar(c: char, rest: string)
    ensures ReadChars(EscapeChar(c) + rest) == Prepend(c, ReadChars(rest))
  {
    var e := EscapeChar(c);
    var s := e + rest;
    assert s[|e|..] == rest;
    if |e| == 6 {
      assert s[4] == HexDigit(c as int / 16) && s[5] == HexDigit(c as int % 16);
    }
  }

  lemma {:induction false} ReadEscaped(value: string, rest: string)
    ensures ReadChars(Escape(value) + ("\"" + rest)) == Got(value, rest)
  {
    if value == "" {
      assert Escape(value) + ("\"" + rest) == "\"" + rest;
      assert ("\"" + rest)[1..] == rest;
    } else {
      ReadEscaped(value[1..], rest);
      var tail := Escape(value[1..]) + ("\"" + rest);
      assert Escape(value) + ("\"" + rest) == EscapeChar(value[0]) + tail;
      ReadEscapedChar(value[0], tail);
      assert value == [value[0]] + value[1..];
    }
  }

  /** Escapes follow section 7 of RFC 8259: a printed string reads back as itself. */
  lemma {:induction false} ReadPrintedString(value: string, rest: string)
    ensures ReadString(JsonString(value) + rest) == Got(value, rest)
  {
    var s := JsonString(value) + rest;
    assert s[1..] == Escape(value) + ("\"" + rest);
    ReadEscaped(value, rest);
  }

  // ----- arrays of strings, and arrays of those

  /** The elements after the opening bracket of a nonempty array. */
  function ReadElements(s: string): (r: Read<Tag>)
    ensures r.Got? ==> |r.rest| < |s|
    decreases |s|
  {
    var head := ReadString(s);
    if head.Failed? || head.rest == "" then Failed
    else if head.rest[0] == ']' then Got([head.value], head.rest[1..])
    else if head.rest[0] == ',' then
      var tail := ReadElements(head.rest[1..]);
      if tail.Failed? then Failed else Got([head.value] + tail.value, tail.rest)
    else Failed
  }

  function ReadTag(s: string): (r: Read<Tag>)
    ensures r.Got? ==> |r.rest| < |s|
  {
    if s == "" || s[0] != '[' then Failed
    else if |s| >= 2 && s[1] == ']' then Got([], s[2..])
    else ReadElements(s[1..])
  }

  function ReadTagList(s: string): (r: Read<seq<Tag>>)
    ensures r.Got? ==> |r.rest| < |s|
    decreases |s|
  {
    var head := ReadTag(s);
    if head.Failed? || head.rest == "" then Failed
    else if head.rest[0] == ']' then Got([head.value], head.rest[1..])
    else if head.rest[0] == ',' then
      var tail := ReadTagList(head.rest[1..]);
      if tail.Failed? then Failed else Got([head.value] + tail.value, tail.rest)
    else Failed
  }

  function ReadTags(s: string): Read<seq<Tag>> {
    if s == "" || s[0] != '[' then Failed
    else if |s| >= 2 && s[1] == ']' then Got([], s[2..])
    else ReadTagList(s[1..])
  }

  lemma CommaAssociates(a: string, b: string, c: string)
    ensures (a + ("," + b)) + "," + c == a + ("," + (b + "," + c))
    ensures (a + ("," + b)) + c == a + ("," + (b + c))
  {
  }

  lemma {:induction false} JoinStringsFront(tag: Tag)
    requires |tag| > 1
    ensures JoinStrings(tag) == JsonString(tag[0]) + ("," + JoinStrings(tag[1..]))
  {
    var init, last, rest := tag[..|tag| - 1], tag[|tag| - 1], tag[1..];
    if |tag| > 2 {
      JoinStringsFront(init);
      assert init[1..] == rest[..|rest| - 1];
      CommaAssociates(JsonString(tag[0]), JoinStrings(init[1..]), JsonString(last));
    } else {
      assert init == [tag[0]] && rest == [last];
      assert JsonString(tag[0]) + "," + JsonString(last) == JsonString(tag[0]) + ("," + JsonString(last));
    }
  }

  lemma {:induction false} JoinTagsFront(tags: seq<Tag>)
    requires |tags| > 1
    ensures JoinTags(tags) == TagJson(tags[0]) + ("," + JoinTags(tags[1..]))
  {
    var init, last, rest := tags[..|tags| - 1], tags[|tags| - 1], tags[1..];
    if |tags| > 2 {
      JoinTagsFront(init);
      assert init[1..] == rest[..|rest| - 1];
      CommaAssociates(TagJson(tags[0]), JoinTags(init[1..]), TagJson(last));
    } else {
      assert init == [tags[0]] && rest == [last];
      assert TagJson(tags[0]) + "," + TagJson(last) == TagJson(tags[0]) + ("," + TagJson(last));
    }
  }

  /** Reading one string and a comma leaves the rest of the elements to read. */
  lemma ReadHeadElement(value: string, tail: string)
    ensures ReadElements(JsonString(value) + ("," + tail))
         == var r := ReadElements(tail); if r.Failed? then Failed else Got([value] + r.value, r.rest)
  {
    ReadPrintedString(value, "," + tail);
    assert ("," + tail)[1..] == tail;
  }

  lemma {:induction false} ReadPrintedElements(tag: Tag, rest: string)
    requires tag != []
    ensures ReadElements(JoinStrings(tag) + ("]" + rest)) == Got(tag, rest)
    decreases |tag|
  {
    if |tag| == 1 {
      ReadPrintedString(tag[0], "]" + rest);
      assert ("]" + rest)[1..] == rest && tag == [tag[0]];
    } else {
      JoinStringsFront(tag);
      CommaAssociates(JsonString(tag[0]), JoinStrings(tag[1..]), "]" + rest);
      ReadHeadElement(tag[0], JoinStrings(tag[1..]) + ("]" + rest));
      ReadPrintedElements(tag[1..], rest);
      assert tag == [tag[0]] + tag[1..];
    }
  }

  /** What stands after an opening bracket. */
  lemma Opened(inner: string, rest: string)
    ensures var s := "[" + inner + "]" + rest;
            && s[0] == '[' && s[1..] == inner + ("]" + rest)
            && (inner == "" ==> |s| >= 2 && s[1] == ']' && s[2..] == rest)
            && (inner != "" ==> s[1] == inner[0])
  {
  }

  lemma {:induction false} ReadPrintedTag(tag: Tag, rest: string)
    ensures ReadTag(TagJson(tag) + rest) == Got(tag, rest)
  {
    Opened(JoinStrings(tag), rest);
    if tag != [] {
      JoinStringsOpens(tag);
      ReadPrintedElements(tag, rest);
    }
  }

  lemma {:induction false} JoinStringsOpens(tag: Tag)
    requires tag != []
    ensures JoinStrings(tag) != "" && JoinStrings(tag)[0] == '\"'
  {
    if |tag| > 1 {
      JoinStringsFront(tag);
    }
  }

  lemma ReadHeadTag(tag: Tag, tail: string)
    ensures ReadTagList(TagJson(tag) + ("," + tail))
         == var r := ReadTagList(tail); if r.Failed? then Failed else Got([tag] + r.value, r.rest)
  {
    ReadPrintedTag(tag, "," + tail);
    assert ("," + tail)[1..] == tail;
  }

  lemma {:induction false} ReadPrintedTagList(tags: seq<Tag>, rest: string)
    requires tags != []
    ensures ReadTagList(JoinTags(tags) + ("]" + rest)) == Got(tags, rest)
    decreases |tags|
  {
    if |tags| == 1 {
      ReadPrintedTag(tags[0], "]" + rest);
      assert ("]" + rest)[1..] == rest && tags == [tags[0]];
    } else {
      JoinTagsFront(tags);
      CommaAssociates(TagJson(tags[0]), JoinTags(tags[1..]), "]" + rest);
      ReadHeadTag(tags[0], JoinTags(tags[1..]) + ("]" + rest));
      ReadPrintedTagList(tags[1..], rest);
      assert tags == [tags[0]] + tags[1..];
    }
  }

  lemma {:induction false} JoinTagsOpens(tags: seq<Tag>)
    requires tags != []
    ensures JoinTags(tags) != "" && JoinTags(tags)[0] == '['
  {
    if |tags| > 1 {
      JoinTagsFront(tags);
    }
  }

  /** A printed tag list reads back as itself, whatever the tags hold. */
  lemma {:induction false} ReadPrintedTags(tags: seq<Tag>, rest: string)
    ensures ReadTags(TagsJson(tags) + rest) == Got(tags, rest)
  {
    Opened(JoinTags(tags), rest);
    if tags != [] {
      JoinTagsOpens(tags);
      ReadPrintedTagList(tags, rest);
    }
  }

  // ----- numbers

  /** How many leading characters are digits. */
  function DigitCount(s: string): (n: nat)
    ensures n <= |s| && AllDigits(s[..n])
    ensures n < |s| ==> !IsDigit(s[n])
  {
    if s == "" || !IsDigit(s[0]) then 0
    else
      var n := 1 + DigitCount(s[1..]);
      assert s[..n] == [s[0]] + s[1..][..n - 1];
      n
  }

  function ReadNumber(s: string): Read<nat> {
    var n := DigitCount(s);
    if !CanonicalDigits(s[..n]) then Failed else Got(DigitsValue(s[..n]), s[n..])
  }

  lemma {:induction false} DigitCountOf(digits: string, rest: string)
    requires AllDigits(digits) && (rest == "" || !IsDigit(rest[0]))
    ensures DigitCount(digits + rest) == |digits|
  {
    if digits == "" {
      assert digits + rest == rest;
    } else {
      DigitCountOf(digits[1..], rest);
      assert (digits + rest)[1..] == digits[1..] + rest;
    }
  }

  lemma ReadPrintedNumber(n: nat, rest: string)
    requires rest == "" || !IsDigit(rest[0])
    ensures ReadNumber(NatText(n) + rest) == Got(n, rest)
  {
    var text := NatText(n);
    DigitCountOf(text, rest);
    assert (text + rest)[..|text|] == text && (text + rest)[|text|..] == rest;
    NatTextIsCanonical(n);
  }

  // ----- signed events

  datatype SignedEvent = SignedEvent(
    id: string,
    pubkey: string,
    createdAt: nat,
    kind: nat,
    tags: seq<Tag>,
    content: string,
    sig: string)

  /** A literal followed by a value. */
  function Field<T>(literal: string, s: string, reader: string -> Read<T>): Read<T> {
    var rest := Expect(literal, s);
    if rest.None? then Failed else reader(rest.value)
  }

  /** The fields in their one order, with nothing before, between or after them. */
  function ReadEvent(s: string): Option<SignedEvent> {
    var id := Field("{\"id\":", s, ReadString);
    if id.Failed? then None else
    var pubkey := Field(",\"pubkey\":", id.rest, ReadString);
    if pubkey.Failed? then None else
    var createdAt := Field(",\"created_at\":", pubkey.rest, ReadNumber);
    if createdAt.Failed? then None else
    var kind := Field(",\"kind\":", createdAt.rest, ReadNumber);
    if kind.Failed? then None else
    var tags := Field(",\"tags\":", kind.rest, ReadTags);
    if tags.Failed? then None else
    var content := Field(",\"content\":", tags.rest, ReadString);
    if content.Failed? then None else
    var sig := Field(",\"sig\":", content.rest, ReadString);
    if sig.Failed? || sig.rest != "}" then None
    else Some(SignedEvent(id.value, pubkey.value, createdAt.value, kind.value, tags.value, content.value, sig.value))
  }

  lemma {:induction false} HexNeedsNoEscape(s: string)
    requires forall i :: 0 <= i < |s| ==> IsHexDigit(s[i])
    ensures Escape(s) == s
  {
    if s != "" {
      HexNeedsNoEscape(s[1..]);
      assert s == [s[0]] + s[1..];
    }
  }

  lemma FieldOfString(literal: string, value: string, rest: string)
    ensures Field(literal, literal + (JsonString(value) + rest), ReadString) == Got(value, rest)
  {
    ExpectLiteral(literal, JsonString(value) + rest);
    ReadPrintedString(value, rest);
  }

  lemma FieldOfNumber(literal: string, n: nat, rest: string)
    requires rest == "" || !IsDigit(rest[0])
    ensures Field(literal, literal + (NatText(n) + rest), ReadNumber) == Got(n, rest)
  {
    ExpectLiteral(literal, NatText(n) + rest);
    ReadPrintedNumber(n, rest);
  }

  lemma FieldOfTags(literal: string, tags: seq<Tag>, rest: string)
    ensures Field(literal, literal + (TagsJson(tags) + rest), ReadTags) == Got(tags, rest)
  {
    ExpectLiteral(literal, TagsJson(tags) + rest);
    ReadPrintedTags(tags, rest);
  }

  /** The printed text of an event from a given field on. */
  function FromSig(e: SignedEvent): string {
    ",\"sig\":" + (JsonString(e.sig) + "}")
  }

  function FromContent(e: SignedEvent): string {
    ",\"content\":" + (JsonString(e.content) + FromSig(e))
  }

  function FromTags(e: SignedEvent): string {
    ",\"tags\":" + (TagsJson(e.tags) + FromContent(e))
  }

  function FromKind(e: SignedEvent): string {
    ",\"kind\":" + (NatText(e.kind) + FromTags(e))
  }

  function FromCreatedAt(e: SignedEvent): string {
    ",\"created_at\":" + (NatText(e.createdAt) + FromKind(e))
  }

  function FromPubkey(e: SignedEvent): string {
    ",\"pubkey\":" + (JsonString(e.pubkey) + FromCreatedAt(e))
  }

  function FromId(e: SignedEvent): string {
    "{\"id\":" + (JsonString(e.id) + FromPubkey(e))
  }

  lemma SigField(e: SignedEvent)
    requires HexIdentity(e.sig, 128)
    ensures FromSig(e) == EventSignature(e.sig)
  {
    HexNeedsNoEscape(e.sig);
    assert ",\"sig\":" + ("\"" + e.sig + "\"" + "}") == ",\"sig\":\"" + e.sig + "\"}";
  }

  lemma HeadFields(e: SignedEvent, rest: string)
    requires HexIdentity(e.id, 64) && HexIdentity(e.pubkey, 64)
    ensures "{\"id\":" + (JsonString(e.id) + (",\"pubkey\":" + (JsonString(e.pubkey) + (",\"created_at\":" + rest))))
         == EventHead(e.id, e.pubkey) + rest
  {
    HexNeedsNoEscape(e.id);
    HexNeedsNoEscape(e.pubkey);
    QuotesMove("{\"id\":", "\"", e.id, ",\"pubkey\":", e.pubkey, ",\"created_at\":", rest);
    assert "{\"id\":" + "\"" == "{\"id\":\"";
    assert "\"" + ",\"pubkey\":" + "\"" == "\",\"pubkey\":\"";
    assert "\"" + ",\"created_at\":" == "\",\"created_at\":";
  }

  lemma QuotesMove(a: string, q: string, x: string, b: string, y: string, c: string, rest: string)
    ensures a + (q + x + q + (b + (q + y + q + (c + rest)))) == (a + q) + x + (q + b + q) + y + (q + c) + rest
  {
  }

  lemma Flatten(head: string, createdAt: string, kindName: string, kind: string, tagsName: string, tags: string,
                content: string, sig: string)
    ensures head + (createdAt + (kindName + (kind + (tagsName + (tags + (content + sig))))))
         == head + createdAt + (kindName + kind + tagsName) + tags + content + sig
  {
  }

  lemma PrintedFieldByField(e: SignedEvent)
    requires HexIdentity(e.id, 64) && HexIdentity(e.pubkey, 64) && HexIdentity(e.sig, 128)
    ensures SignedEventJson(e.id, e.pubkey, e.createdAt, e.kind, e.tags, e.content, e.sig) == FromId(e)
  {
    var content := ",\"content\":" + JsonString(e.content);
    SigField(e);
    HeadFields(e, NatText(e.createdAt) + FromKind(e));
    assert FromContent(e) == content + FromSig(e);
    Flatten(EventHead(e.id, e.pubkey), NatText(e.createdAt), ",\"kind\":", NatText(e.kind), ",\"tags\":",
            TagsJson(e.tags), content, FromSig(e));
  }

  lemma ReadFieldByField(e: SignedEvent)
    ensures ReadEvent(FromId(e)) == Some(e)
  {
    FieldOfString("{\"id\":", e.id, FromPubkey(e));
    FieldOfString(",\"pubkey\":", e.pubkey, FromCreatedAt(e));
    FieldOfNumber(",\"created_at\":", e.createdAt, FromKind(e));
    FieldOfNumber(",\"kind\":", e.kind, FromTags(e));
    FieldOfTags(",\"tags\":", e.tags, FromContent(e));
    FieldOfString(",\"content\":", e.content, FromSig(e));
    FieldOfString(",\"sig\":", e.sig, "}");
  }

  /** The compact JSON of a signed event reads back as exactly its fields. */
  lemma ReadAfterPrint(e: SignedEvent)
    requires HexIdentity(e.id, 64) && HexIdentity(e.pubkey, 64) && HexIdentity(e.sig, 128)
    ensures ReadEvent(SignedEventJson(e.id, e.pubkey, e.createdAt, e.kind, e.tags, e.content, e.sig)) == Some(e)
  {
    PrintedFieldByField(e);
    ReadFieldByField(e);
  }
}
