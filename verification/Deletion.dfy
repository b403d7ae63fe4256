/** Canonical authored deletion requests of crates/event/src/deletion.rs. */
module Deletion {
  import opened Bits
  import opened Digits
  import opened Json
  import opened Lexicographic
  import opened Results
  import opened Sequences
  import opened Text

  const CONTENT_MAX_BYTES: nat := 128 * 1024
  const TAG_MAX_COUNT: nat := 1024
  const TAG_ELEMENT_MAX_BYTES: nat := 4 * 1024
  const TAG_TOTAL_MAX_BYTES: nat := 128 * 1024
  const EVENT_WIRE_MAX_BYTES: nat := 256 * 1024
  const TARGET_KIND_MAX: nat := 65_535
  const KIND_DELETION_REQUEST: nat := 5

  const SIGNED_EVENT_FIXED_MAX_BYTES: nat :=
    |"{\"id\":\""| + 64 + |"\",\"pubkey\":\""| + 64 + |"\",\"created_at\":"| + 20
    + |",\"kind\":5,\"tags\":"| + |",\"content\":"| + |",\"sig\":\""| + 128 + |"\"}"|

  datatype DeletionError =
    | ContentTooLarge(actual: nat)
    | DuplicateEventTarget(eventId: string)
    | DuplicateAddressTarget(coordinate: string)
    | TargetMissing
    | TagCountExceeded(actual: nat)
    | TagElementTooLarge(actual: nat)
    | TagBytesExceeded(actual: nat)
    | EventWireTooLarge(actual: nat)

  /** A target's canonical text (lowercase hex id, or coordinate) and its kind. */
  datatype Target = Target(text: string, kind: nat)

  type KindTarget = t: Target | t.kind <= TARGET_KIND_MAX witness Target("", 0)

  /** A coordinate is parsed from at most as many bytes as a tag element may hold. */
  type AddressTarget = t: KindTarget | Utf8Len(t.text) <= TAG_ELEMENT_MAX_BYTES witness Target("", 0)

  type EventTarget = t: KindTarget | HexIdentity(t.text, 64) witness Target(seq(64, _ => '0'), 0)

  // ----- kind hints: the reference

  function KindSet(kinds: seq<nat>): set<nat> {
    set k | k in kinds
  }

  lemma {:induction false} AscendingCardinality(s: seq<nat>)
    requires StrictlySorted(s, NatLess)
    ensures |KindSet(s)| == |s|
  {
    if s != [] {
      var rest := s[1..];
      AscendingCardinality(rest);
      assert s == [s[0]] + rest;
      assert s[0] !in rest;
      assert KindSet(s) == {s[0]} + KindSet(rest);
    }
  }

  function TargetKinds(targets: seq<Target>): (kinds: seq<nat>)
    ensures |kinds| == |targets|
    ensures forall i :: 0 <= i < |targets| ==> kinds[i] == targets[i].kind
  {
    if targets == [] then [] else [targets[0].kind] + TargetKinds(targets[1..])
  }

  // ----- kind hints: the bitset

  /** The 65,536 kinds fill this many 64-bit words. */
  const WORD_COUNT: nat := 1024

  /** Bit b of word w is set exactly when the kind 64 * w + b was recorded. */
  ghost predicate Records(words: seq<nat>, kinds: seq<nat>) {
    && |words| == WORD_COUNT
    && (forall w :: 0 <= w < WORD_COUNT ==> words[w] < WORD)
    && (forall w, b :: 0 <= w < WORD_COUNT && 0 <= b < 64 ==>
          (Bit(words[w], b) <==> 64 * w + b in kinds))
  }

  lemma RecordKind(words: seq<nat>, kinds: seq<nat>, kind: nat)
    requires Records(words, kinds) && kind <= TARGET_KIND_MAX
    ensures var word := kind / 64;
            Records(words[word := Or(words[word], Pow2(kind % 64))], kinds + [kind])
  {
    var word, bit := kind / 64, kind % 64;
    var updated := words[word := Or(words[word], Pow2(bit))];
    OrMaskInWord(words[word], bit);
    forall w, b | 0 <= w < WORD_COUNT && 0 <= b < 64
      ensures Bit(updated[w], b) <==> 64 * w + b in kinds + [kind]
    {
      BitOfOr(words[word], Pow2(bit), b);
      BitOfPow2(bit, b);
      assert 64 * w + b == kind <==> w == word && b == bit;
      assert 64 * w + b in kinds + [kind] <==> 64 * w + b in kinds || 64 * w + b == kind;
    }
  }

  lemma AlreadyRecorded(words: seq<nat>, kinds: seq<nat>, kind: nat)
    requires Records(words, kinds) && kind <= TARGET_KIND_MAX
    ensures And(words[kind / 64], Pow2(kind % 64)) == 0 <==> kind !in kinds
    ensures kind in kinds ==> Records(words, kinds + [kind])
  {
    MaskTests(words[kind / 64], kind % 64);
    assert 64 * (kind / 64) + kind % 64 == kind;
  }

  /** Clearing the lowest bit moves the next one strictly up. */
  lemma DrainAdvances(x: nat)
    requires x > 0
    ensures And(x, x - 1) > 0 ==> TrailingZeros(And(x, x - 1)) > TrailingZeros(x)
  {
    var y := And(x, x - 1);
    if y > 0 {
      LowestBit(x);
      LowestBit(y);
      ClearLowest(x, TrailingZeros(y));
    }
  }

  /** The hints are exactly the bits of `word` that are no longer in `remaining`. */
  ghost predicate Drained(word: nat, base: nat, remaining: nat, hints: seq<nat>) {
    forall k :: k in hints <==> base <= k < base + 64 && Bit(word, k - base) && !Bit(remaining, k - base)
  }

  /** The bits of `word` are split between the hints drained so far and the remaining bits above them. */
  ghost predicate Draining(word: nat, base: nat, remaining: nat, hints: seq<nat>) {
    && remaining < WORD
    && StrictlySorted(hints, NatLess)
    && Drained(word, base, remaining, hints)
    && (forall i :: 0 <= i < 64 && Bit(remaining, i) ==> Bit(word, i))
    && (remaining != 0 ==> forall k | k in hints :: k < base + TrailingZeros(remaining))
  }

  lemma DrainBits(word: nat, base: nat, remaining: nat, hints: seq<nat>, next: nat, rest: nat)
    requires Draining(word, base, remaining, hints) && remaining != 0
    requires next == base + TrailingZeros(remaining) && rest == And(remaining, remaining - 1)
    ensures Drained(word, base, rest, hints + [next])
    ensures forall i :: 0 <= i < 64 && Bit(rest, i) ==> Bit(word, i)
  {
    LowestBit(remaining);
    WordBits(remaining);
    forall i | 0 <= i < 64
      ensures Bit(rest, i) <==> Bit(remaining, i) && base + i != next
    {
      ClearLowest(remaining, i);
    }
  }

  lemma DrainStep(word: nat, base: nat, remaining: nat, hints: seq<nat>, next: nat, rest: nat)
    requires Draining(word, base, remaining, hints) && remaining != 0
    requires next == base + TrailingZeros(remaining) && rest == And(remaining, remaining - 1)
    ensures Draining(word, base, rest, hints + [next])
  {
    AndShrinks(remaining, remaining - 1);
    AppendSorted(hints, [next], next);
    DrainAdvances(remaining);
    DrainBits(word, base, remaining, hints, next, rest);
  }

  /** The inner loop: the set bits of one word, lowest first, cleared by `x & (x - 1)`. */
  method DrainWord(word: nat, base: nat) returns (hints: seq<nat>)
    requires word < WORD
    ensures StrictlySorted(hints, NatLess)
    ensures forall k :: k in hints <==> base <= k < base + 64 && Bit(word, k - base)
  {
    hints := [];
    var remaining: nat := word;
    while remaining != 0
      invariant Draining(word, base, remaining, hints)
      decreases PopCount(remaining)
    {
      var next, rest := base + TrailingZeros(remaining), And(remaining, remaining - 1);
      DrainStep(word, base, remaining, hints, next, rest);
      ClearLowestCount(remaining, rest);
      hints := hints + [next];
      remaining := rest;
    }
    forall i | 0 <= i < 64
      ensures !Bit(0, i)
    {
      BitOfZero(i);
    }
  }

  /** Marking a kind keeps the bitset exact, and its bit was clear exactly when the kind is new. */
  lemma MarkStep(words: seq<nat>, kinds: seq<nat>, kind: nat)
    requires Records(words, kinds) && kind <= TARGET_KIND_MAX
    ensures var word, mask := kind / 64, Pow2(kind % 64);
            if And(words[word], mask) == 0 then
              && Records(words[word := Or(words[word], mask)], kinds + [kind])
              && |KindSet(kinds + [kind])| == |KindSet(kinds)| + 1
            else
              && Records(words, kinds + [kind])
              && |KindSet(kinds + [kind])| == |KindSet(kinds)|
  {
    AlreadyRecorded(words, kinds, kind);
    RecordKind(words, kinds, kind);
    assert KindSet(kinds + [kind]) == KindSet(kinds) + {kind};
    assert kind in kinds ==> KindSet(kinds) + {kind} == KindSet(kinds);
  }

  lemma EmptyRecords(words: seq<nat>)
    requires |words| == WORD_COUNT && forall w :: 0 <= w < WORD_COUNT ==> words[w] == 0
    ensures Records(words, [])
  {
    forall b: nat
      ensures !Bit(0, b)
    {
      BitOfZero(b);
    }
  }

  /** Marks every kind in the bitset and counts the distinct ones. */
  method MarkKinds(kinds: seq<nat>) returns (seen: array<nat>, unique: nat)
    requires forall k | k in kinds :: k <= TARGET_KIND_MAX
    ensures fresh(seen) && Records(seen[..], kinds)
    ensures unique == |KindSet(kinds)|
  {
    seen := new nat[WORD_COUNT](_ => 0);
    unique := 0;
    EmptyRecords(seen[..]);
    assert kinds[..0] == [] && KindSet([]) == {};
    for i := 0 to |kinds|
      invariant Records(seen[..], kinds[..i])
      invariant unique == |KindSet(kinds[..i])| <= TARGET_KIND_MAX + 1
    {
      var kind := kinds[i];
      assert kind in kinds;
      MarkStep(seen[..], kinds[..i], kind);
      BoundedKinds(kinds, i + 1);
      assert kinds[..i + 1] == kinds[..i] + [kind];
      var word, mask := kind / 64, Pow2(kind % 64);
      if And(seen[word], mask) == 0 {
        ghost var words := seen[..];
        seen[word] := Or(seen[word], mask);
        assert seen[..] == words[word := Or(words[word], mask)];
        unique := SaturatingAdd(unique, 1);
      }
    }
    assert kinds[..|kinds|] == kinds;
  }

  lemma BoundedKinds(kinds: seq<nat>, n: nat)
    requires n <= |kinds| && forall k | k in kinds :: k <= TARGET_KIND_MAX
    ensures |KindSet(kinds[..n])| <= TARGET_KIND_MAX + 1
  {
    forall k | k in KindSet(kinds[..n])
      ensures k <= TARGET_KIND_MAX
    {
      assert k in kinds;
    }
    SetBelow(KindSet(kinds[..n]), TARGET_KIND_MAX + 1);
  }

  lemma {:induction false} SetBelow(s: set<nat>, n: nat)
    requires forall k | k in s :: k < n
    ensures |s| <= n
    decreases n
  {
    if n == 0 {
      assert s == {};
    } else {
      SetBelow(s - {n - 1}, n - 1);
      assert n - 1 in s ==> s == (s - {n - 1}) + {n - 1};
      assert n - 1 !in s ==> s == s - {n - 1};
    }
  }

  function SaturatedCount(events: nat, addresses: nat, hints: nat): nat {
    SaturatingAdd(SaturatingAdd(events, addresses), hints)
  }

  function KindHints(events: seq<EventTarget>, addresses: seq<AddressTarget>): Result<seq<nat>, DeletionError> {
    var hints := SortDedup(TargetKinds(events) + TargetKinds(addresses));
    var count := SaturatedCount(|events|, |addresses|, |hints|);
    if count > TAG_MAX_COUNT then Err(TagCountExceeded(count)) else Ok(hints)
  }

  /** The bitset collector computes exactly the ascending distinct kinds, or the tag-count error. */
  method CollectKindHints(events: seq<EventTarget>, addresses: seq<AddressTarget>)
    returns (r: Result<seq<nat>, DeletionError>)
    ensures r == KindHints(events, addresses)
  {
    var kinds := TargetKinds(events) + TargetKinds(addresses);
    forall k | k in kinds
      ensures k <= TARGET_KIND_MAX
    {
      var i :| 0 <= i < |kinds| && kinds[i] == k;
      assert k == if i < |events| then events[i].kind else addresses[i - |events|].kind;
    }
    var seen, unique := MarkKinds(kinds);
    SortDedupExact(kinds);
    AscendingCardinality(SortDedup(kinds));
    assert KindSet(kinds) == KindSet(SortDedup(kinds));
    var count := SaturatingAdd(SaturatingAdd(|events|, |addresses|), unique);
    if count > TAG_MAX_COUNT {
      return Err(TagCountExceeded(count));
    }
    var hints := DrainAll(seen[..], kinds);
    StrictlySortedUnique(hints, SortDedup(kinds), NatLess);
    return Ok(hints);
  }

  /** The outer loop: drains the words in order. */
  method DrainAll(words: seq<nat>, ghost kinds: seq<nat>) returns (hints: seq<nat>)
    requires Records(words, kinds) && forall k | k in kinds :: k <= TARGET_KIND_MAX
    ensures StrictlySorted(hints, NatLess)
    ensures forall k :: k in hints <==> k in kinds
  {
    hints := [];
    for w := 0 to WORD_COUNT
      invariant StrictlySorted(hints, NatLess)
      invariant forall k :: k in hints <==> k in kinds && k < 64 * w
    {
      var drained := DrainWord(words[w], 64 * w);
      forall k: nat | 64 * w <= k < 64 * (w + 1)
        ensures k in drained <==> k in kinds
      {
        assert Bit(words[w], k - 64 * w) <==> 64 * w + (k - 64 * w) in kinds;
      }
      AppendSorted(hints, drained, 64 * w);
      hints := hints + drained;
    }
  }

  // ----- wire size

  predicate SmallTag(tag: Tag) {
    |tag| == 2 && Utf8Len(tag[0]) <= TAG_ELEMENT_MAX_BYTES && Utf8Len(tag[1]) <= TAG_ELEMENT_MAX_BYTES
  }

  predicate SmallTags(tags: seq<Tag>) {
    forall i :: 0 <= i < |tags| ==> SmallTag(tags[i])
  }

  lemma PairSum(a: string, b: string, weight: string -> int)
    ensures SumBy([a, b], weight) == weight(a) + weight(b)
  {
    assert [a, b][1..] == [b] && [b][1..] == [];
    assert SumBy([b], weight) == weight(b);
  }

  lemma SmallTagCost(tag: Tag)
    requires SmallTag(tag)
    ensures TagCost(tag) == 3 + CanonicalStringBytes(tag[0]) + CanonicalStringBytes(tag[1]) <= 50_000
    ensures SumBy(tag, ByteCount) == Utf8Len(tag[0]) + Utf8Len(tag[1]) <= 8_192
    ensures CanonicalStringBytes(tag[0]) <= 24_600 && CanonicalStringBytes(tag[1]) <= 24_600
  {
    assert tag == [tag[0], tag[1]];
    TagJsonBytes(tag);
    PairSum(tag[0], tag[1], StringCost);
    PairSum(tag[0], tag[1], ByteCount);
    CanonicalStringBytesExact(tag[0]);
    CanonicalStringBytesExact(tag[1]);
  }

  lemma {:induction false} SmallTagsBound(tags: seq<Tag>)
    requires SmallTags(tags)
    ensures 0 <= SumBy(tags, ElementBytes) <= 8_192 * |tags|
    ensures Utf8Len(TagsJson(tags)) <= 2 + 50_001 * |tags|
  {
    if tags == [] {
      TagsJsonBytes(tags);
    } else {
      var init, last := tags[..|tags| - 1], tags[|tags| - 1];
      SmallTagsBound(init);
      SmallTagCost(last);
      TagTotalsAppend(init, last);
      TagsJsonAppend(init, last);
      assert tags == init + [last];
    }
  }

  lemma {:induction false} AppendElementBytes(tags: seq<Tag>, name: string, value: string)
    requires SmallTags(tags) && |tags| < TAG_MAX_COUNT && SmallTag([name, value])
    ensures SumBy(tags + [[name, value]], ElementBytes) == SumBy(tags, ElementBytes) + Utf8Len(name) + Utf8Len(value)
    ensures 0 <= SumBy(tags, ElementBytes) <= 8_400_000
  {
    SmallTagsBound(tags);
    SmallTagCost([name, value]);
    TagTotalsAppend(tags, [name, value]);
  }

  lemma {:induction false} AppendJsonBytes(tags: seq<Tag>, name: string, value: string)
    requires SmallTags(tags) && |tags| < TAG_MAX_COUNT && SmallTag([name, value])
    ensures Utf8Len(TagsJson(tags + [[name, value]]))
         == Utf8Len(TagsJson(tags)) + (if |tags| > 0 then 1 else 0) + 3
            + CanonicalStringBytes(name) + CanonicalStringBytes(value)
    ensures Utf8Len(TagsJson(tags)) <= 52_000_000
    ensures CanonicalStringBytes(name) <= 24_600 && CanonicalStringBytes(value) <= 24_600
  {
    SmallTagsBound(tags);
    SmallTagCost([name, value]);
    TagsJsonAppend(tags, [name, value]);
  }

  method AddTagSize(m: Meter, name: string, value: string, ghost tags: seq<Tag>)
    returns (r: Result<Meter, DeletionError>)
    requires Measures(m, tags) && SmallTags(tags) && |tags| < TAG_MAX_COUNT
    ensures r.Ok? <==> SmallTag([name, value])
    ensures r.Ok? ==> Measures(r.value, tags + [[name, value]])
    ensures r.Err? ==>
              r.error == TagElementTooLarge(if Utf8Len(name) > TAG_ELEMENT_MAX_BYTES then Utf8Len(name) else Utf8Len(value))
  {
    var tagBytes, tagsJsonBytes := m.tagBytes, m.tagsJsonBytes;
    SmallTagsBound(tags);
    if Utf8Len(name) > TAG_ELEMENT_MAX_BYTES {
      return Err(TagElementTooLarge(Utf8Len(name)));
    }
    tagBytes := SaturatingAdd(tagBytes, Utf8Len(name));
    if Utf8Len(value) > TAG_ELEMENT_MAX_BYTES {
      return Err(TagElementTooLarge(Utf8Len(value)));
    }
    tagBytes := SaturatingAdd(tagBytes, Utf8Len(value));
    AppendElementBytes(tags, name, value);
    AppendJsonBytes(tags, name, value);
    if m.tagCount > 0 {
      tagsJsonBytes := SaturatingAdd(tagsJsonBytes, 1);
    }
    tagsJsonBytes := SaturatingAdd(tagsJsonBytes, 2);
    tagsJsonBytes := SaturatingAdd(tagsJsonBytes, CanonicalStringBytes(name));
    tagsJsonBytes := SaturatingAdd(tagsJsonBytes, 1);
    tagsJsonBytes := SaturatingAdd(tagsJsonBytes, CanonicalStringBytes(value));
    return Ok(Meter(tagBytes, tagsJsonBytes, SaturatingAdd(m.tagCount, 1)));
  }

  function Pairs(name: string, values: seq<string>): (tags: seq<Tag>)
    ensures |tags| == |values|
    ensures forall i :: 0 <= i < |values| ==> tags[i] == [name, values[i]]
  {
    if values == [] then [] else Pairs(name, values[..|values| - 1]) + [[name, values[|values| - 1]]]
  }

  function Texts(targets: seq<Target>): (texts: seq<string>)
    ensures |texts| == |targets|
    ensures forall i :: 0 <= i < |targets| ==> texts[i] == targets[i].text
  {
    if targets == [] then [] else Texts(targets[..|targets| - 1]) + [targets[|targets| - 1].text]
  }

  function KindTexts(kinds: seq<nat>): (texts: seq<string>)
    ensures |texts| == |kinds|
    ensures forall i :: 0 <= i < |kinds| ==> texts[i] == NatText(kinds[i])
  {
    if kinds == [] then [] else KindTexts(kinds[..|kinds| - 1]) + [NatText(kinds[|kinds| - 1])]
  }

  /** The wire tags of a request: event targets, address targets, kind advisories. */
  function RequestTags(events: seq<Target>, addresses: seq<Target>, hints: seq<nat>): seq<Tag> {
    GroupedTags(Texts(events), Texts(addresses), KindTexts(hints))
  }

  /** The value of the first tag that is too large to be an element. */
  function FirstLarge(tags: seq<Tag>): Option<nat>
    requires forall i :: 0 <= i < |tags| ==> |tags[i]| == 2
  {
    if tags == [] then None
    else if Utf8Len(tags[0][1]) > TAG_ELEMENT_MAX_BYTES then Some(Utf8Len(tags[0][1]))
    else FirstLarge(tags[1..])
  }

  lemma {:induction false} FirstLargeConcat(a: seq<Tag>, b: seq<Tag>)
    requires forall i :: 0 <= i < |a| ==> |a[i]| == 2
    requires forall i :: 0 <= i < |b| ==> |b[i]| == 2
    ensures FirstLarge(a + b) == if FirstLarge(a).Some? then FirstLarge(a) else FirstLarge(b)
  {
    if a == [] {
      assert a + b == b;
    } else {
      assert (a + b)[1..] == a[1..] + b;
      FirstLargeConcat(a[1..], b);
    }
  }

  lemma {:induction false} NoneLarge(name: string, tags: seq<Tag>)
    requires Utf8Len(name) <= TAG_ELEMENT_MAX_BYTES
    requires forall i :: 0 <= i < |tags| ==> |tags[i]| == 2 && tags[i][0] == name
    ensures FirstLarge(tags).None? <==> SmallTags(tags)
  {
    if tags != [] {
      NoneLarge(name, tags[1..]);
      assert SmallTags(tags) <==> SmallTag(tags[0]) && SmallTags(tags[1..]) by {
        assert forall i :: 0 < i < |tags| ==> tags[i] == tags[1..][i - 1];
      }
    }
  }

  function MeasuredSize(content: string, tags: seq<Tag>): nat {
    SIGNED_EVENT_FIXED_MAX_BYTES + Utf8Len(TagsJson(tags)) + Utf8Len(JsonString(content))
  }

  function WireSize(content: string, events: seq<Target>, addresses: seq<Target>, hints: seq<nat>)
    : Result<nat, DeletionError>
  {
    var count := SaturatedCount(|events|, |addresses|, |hints|);
    var tags := RequestTags(events, addresses, hints);
    if count > TAG_MAX_COUNT then Err(TagCountExceeded(count))
    else if FirstLarge(tags).Some? then Err(TagElementTooLarge(FirstLarge(tags).value))
    else if SumBy(tags, ElementBytes) > TAG_TOTAL_MAX_BYTES then Err(TagBytesExceeded(SumBy(tags, ElementBytes)))
    else if MeasuredSize(content, tags) > EVENT_WIRE_MAX_BYTES then Err(EventWireTooLarge(MeasuredSize(content, tags)))
    else Ok(MeasuredSize(content, tags))
  }

  /** One of the three loops: a tag per value, all under the same name. */
  method AddTags(m: Meter, name: string, values: seq<string>, ghost tags: seq<Tag>)
    returns (r: Result<Meter, DeletionError>)
    requires Measures(m, tags) && SmallTags(tags) && |tags| + |values| <= TAG_MAX_COUNT
    requires Utf8Len(name) <= TAG_ELEMENT_MAX_BYTES
    ensures r.Ok? <==> FirstLarge(Pairs(name, values)).None?
    ensures r.Ok? ==> SmallTags(Pairs(name, values)) && Measures(r.value, tags + Pairs(name, values))
    ensures r.Err? ==> r.error == TagElementTooLarge(FirstLarge(Pairs(name, values)).value)
  {
    var meter := m;
    ghost var all := Pairs(name, values);
    NoneLarge(name, all);
    assert all[..0] == [] && all[0..] == all && tags + [] == tags;
    for i := 0 to |values|
      invariant SmallTags(tags + all[..i]) && Measures(meter, tags + all[..i])
      invariant FirstLarge(all) == FirstLarge(all[i..])
    {
      PrefixStep(tags, all, i);
      var next := AddTagSize(meter, name, values[i], tags + all[..i]);
      if next.Err? {
        return Err(next.error);
      }
      meter := next.value;
    }
    assert all[..|values|] == all;
    return Ok(meter);
  }

  lemma PrefixStep(tags: seq<Tag>, all: seq<Tag>, i: nat)
    requires i < |all|
    ensures tags + all[..i] + [all[i]] == tags + all[..i + 1]
    ensures SmallTags(tags + all[..i]) && SmallTag(all[i]) ==> SmallTags(tags + all[..i + 1])
    ensures all[i..][0] == all[i] && all[i..][1..] == all[i + 1..]
  {
    assert tags + all[..i] + [all[i]] == tags + all[..i + 1];
  }

  /** The three groups of tags, from the texts of their values. */
  function GroupedTags(es: seq<string>, ads: seq<string>, ks: seq<string>): seq<Tag> {
    Pairs("e", es) + Pairs("a", ads) + Pairs("k", ks)
  }

  lemma OneByteNames()
    ensures Utf8Len("e") == Utf8Len("a") == Utf8Len("k") == 1
  {
    AsciiLength("e");
    AsciiLength("a");
    AsciiLength("k");
  }

  /** Runs the three loops of the estimator in order. */
  method MeterTags(es: seq<string>, ads: seq<string>, ks: seq<string>)
    returns (r: Result<Meter, DeletionError>)
    requires |es| + |ads| + |ks| <= TAG_MAX_COUNT
    ensures r.Ok? <==> FirstLarge(GroupedTags(es, ads, ks)).None?
    ensures r.Ok? ==> SmallTags(GroupedTags(es, ads, ks)) && Measures(r.value, GroupedTags(es, ads, ks))
    ensures r.Err? ==> r.error == TagElementTooLarge(FirstLarge(GroupedTags(es, ads, ks)).value)
  {
    ghost var e, a, k := Pairs("e", es), Pairs("a", ads), Pairs("k", ks);
    FirstLargeConcat(e, a);
    FirstLargeConcat(e + a, k);
    EmptyMeasures();
    OneByteNames();
    var m := AddTags(Meter(0, 2, 0), "e", es, []);
    if m.Err? {
      return m;
    }
    assert [] + e == e;
    m := AddTags(m.value, "a", ads, e);
    if m.Err? {
      return m;
    }
    assert SmallTags(e + a);
    m := AddTags(m.value, "k", ks, e + a);
    return m;
  }

  /** The closing sum of the estimator is exact. */
  lemma NothingSaturates(content: string, m: Meter, tags: seq<Tag>)
    requires Utf8Len(content) <= CONTENT_MAX_BYTES
    requires SmallTags(tags) && |tags| <= TAG_MAX_COUNT && Measures(m, tags)
    ensures SaturatingAdd(SaturatingAdd(SIGNED_EVENT_FIXED_MAX_BYTES, m.tagsJsonBytes), CanonicalStringBytes(content))
         == MeasuredSize(content, tags)
  {
    SmallTagsBound(tags);
    CanonicalStringBytesExact(content);
  }

  /** The estimator over unsorted targets computes the wire size exactly; nothing saturates. */
  method ValidateWireSize(content: string, events: seq<EventTarget>, addresses: seq<AddressTarget>, hints: seq<nat>)
    returns (r: Result<nat, DeletionError>)
    requires Utf8Len(content) <= CONTENT_MAX_BYTES
    ensures r == WireSize(content, events, addresses, hints)
  {
    var count := SaturatedCount(|events|, |addresses|, |hints|);
    if count > TAG_MAX_COUNT {
      return Err(TagCountExceeded(count));
    }
    var m := MeterTags(Texts(events), Texts(addresses), KindTexts(hints));
    if m.Err? {
      return Err(m.error);
    }
    if m.value.tagBytes > TAG_TOTAL_MAX_BYTES {
      return Err(TagBytesExceeded(m.value.tagBytes));
    }
    NothingSaturates(content, m.value, RequestTags(events, addresses, hints));
    var actual := SaturatingAdd(SaturatingAdd(SIGNED_EVENT_FIXED_MAX_BYTES, m.value.tagsJsonBytes),
                                CanonicalStringBytes(content));
    if actual > EVENT_WIRE_MAX_BYTES {
      return Err(EventWireTooLarge(actual));
    }
    return Ok(actual);
  }

  // ----- canonical order

  predicate TextLess(a: Target, b: Target) { LexLess(a.text, b.text) }

  function TextOf(t: Target): string { t.text }

  ghost predicate Sorted(s: seq<Target>) {
    forall i, j :: 0 <= i < j < |s| ==> !TextLess(s[j], s[i])
  }

  function Insert(t: Target, s: seq<Target>): seq<Target> {
    if s == [] || !TextLess(s[0], t) then [t] + s else [s[0]] + Insert(t, s[1..])
  }

  /** A stable sort by target text. */
  function SortTargets(s: seq<Target>): seq<Target> {
    if s == [] then [] else Insert(s[0], SortTargets(s[1..]))
  }

  lemma NotLessTransitive(a: Target, b: Target, c: Target)
    requires !TextLess(b, a) && !TextLess(c, b)
    ensures !TextLess(c, a)
  {
    if TextLess(c, a) {
      LexTotal(a.text, b.text);
      LexTotal(b.text, c.text);
      if TextLess(a, b) {
        LexTransitive(c.text, a.text, b.text);
      }
    }
  }

  lemma ConsSorted(t: Target, s: seq<Target>)
    requires Sorted(s) && forall x | x in s :: !TextLess(x, t)
    ensures Sorted([t] + s)
  {
    assert forall j :: 0 <= j < |s| ==> s[j] in s;
  }

  lemma {:induction false} InsertMembers(t: Target, s: seq<Target>)
    ensures multiset(Insert(t, s)) == multiset(s) + multiset{t}
    ensures forall x :: x in Insert(t, s) <==> x == t || x in s
  {
    if s != [] {
      InsertMembers(t, s[1..]);
      assert s == [s[0]] + s[1..];
    }
  }

  lemma {:induction false} InsertSorted(t: Target, s: seq<Target>)
    requires Sorted(s)
    ensures Sorted(Insert(t, s))
  {
    if s == [] || !TextLess(s[0], t) {
      forall x | x in s
        ensures !TextLess(x, t)
      {
        var j :| 0 <= j < |s| && s[j] == x;
        LexIrreflexive(s[0].text);
        NotLessTransitive(t, s[0], s[j]);
      }
      ConsSorted(t, s);
    } else {
      InsertSorted(t, s[1..]);
      InsertMembers(t, s[1..]);
      LexAsymmetric(s[0].text, t.text);
      ConsSorted(s[0], Insert(t, s[1..]));
    }
  }

  lemma {:induction false} SortTargetsExact(s: seq<Target>)
    ensures Sorted(SortTargets(s)) && multiset(SortTargets(s)) == multiset(s)
  {
    if s != [] {
      SortTargetsExact(s[1..]);
      InsertSorted(s[0], SortTargets(s[1..]));
      InsertMembers(s[0], SortTargets(s[1..]));
      assert s == [s[0]] + s[1..];
    }
  }

  /** The text of the first neighbouring pair with equal texts. */
  function FirstAdjacent(s: seq<Target>): Option<string> {
    if |s| < 2 then None
    else if s[0].text == s[1].text then Some(s[0].text)
    else FirstAdjacent(s[1..])
  }

  lemma {:induction false} FirstAdjacentExact(s: seq<Target>)
    requires Sorted(s)
    ensures FirstAdjacent(s).None? <==> StrictlySorted(s, TextLess)
    ensures FirstAdjacent(s).None? <==> DistinctBy(s, TextOf)
    ensures FirstAdjacent(s).Some? ==> exists i, j :: 0 <= i < j < |s| && s[i].text == s[j].text == FirstAdjacent(s).value
  {
    if FirstAdjacent(s).None? {
      NoAdjacent(s);
    } else {
      var i := SomeAdjacent(s);
      LexIrreflexive(s[i].text);
      assert TextOf(s[i]) == TextOf(s[i + 1]) && !TextLess(s[i], s[i + 1]);
    }
  }

  lemma {:induction false} NoAdjacent(s: seq<Target>)
    requires Sorted(s) && FirstAdjacent(s).None?
    ensures StrictlySorted(s, TextLess) && DistinctBy(s, TextOf)
  {
    if |s| >= 2 {
      NoAdjacent(s[1..]);
      HeadBelowRest(s);
      assert forall i :: 0 < i < |s| ==> s[i] == s[1..][i - 1];
    }
  }

  lemma {:induction false} SomeAdjacent(s: seq<Target>) returns (i: nat)
    requires FirstAdjacent(s).Some?
    ensures i + 1 < |s| && s[i].text == s[i + 1].text == FirstAdjacent(s).value
  {
    if s[0].text == s[1].text {
      i := 0;
    } else {
      i := SomeAdjacent(s[1..]);
      i := i + 1;
    }
  }

  lemma HeadBelowRest(s: seq<Target>)
    requires Sorted(s) && |s| >= 2 && s[0].text != s[1].text
    ensures forall j :: 0 < j < |s| ==> TextLess(s[0], s[j]) && s[0].text != s[j].text
  {
    forall j | 0 < j < |s|
      ensures TextLess(s[0], s[j]) && s[0].text != s[j].text
    {
      LexTotal(s[0].text, s[1].text);
      LexTotal(s[1].text, s[j].text);
      LexIrreflexive(s[0].text);
      if s[1].text != s[j].text {
        LexTransitive(s[0].text, s[1].text, s[j].text);
      }
    }
  }

  /** After sorting, the neighbour test finds a duplicate exactly when any two texts coincide. */
  lemma {:induction false} NeighbourTestFindsAll(s: seq<Target>)
    ensures FirstAdjacent(SortTargets(s)).None? <==> DistinctBy(s, TextOf)
  {
    var sorted := SortTargets(s);
    SortTargetsExact(s);
    FirstAdjacentExact(sorted);
    if DistinctBy(s, TextOf) {
      DistinctByPermutation(s, sorted, TextOf);
    }
    if DistinctBy(sorted, TextOf) {
      DistinctByPermutation(sorted, s, TextOf);
    }
  }

  /** Two targets share this text. */
  ghost predicate Duplicated(s: seq<Target>, text: string) {
    exists i, j :: 0 <= i < j < |s| && s[i].text == text && s[j].text == text
  }

  ghost predicate LeastDuplicate(s: seq<Target>, text: string) {
    Duplicated(s, text) && forall other | Duplicated(s, other) :: !LexLess(other, text)
  }

  lemma {:induction false} DuplicatedPermuted(a: seq<Target>, b: seq<Target>, text: string)
    requires multiset(a) == multiset(b) && Duplicated(a, text)
    ensures Duplicated(b, text)
  {
    var i, j :| 0 <= i < j < |a| && a[i].text == text && a[j].text == text;
    TwoMembers(a, i, j);
    var p, q := TwoPlaces(b, a[i], a[j]);
    assert if p < q then 0 <= p < q < |b| else 0 <= q < p < |b|;
  }

  lemma {:induction false} DuplicatedTail(s: seq<Target>, text: string)
    requires |s| >= 2
    ensures Duplicated(s[1..], text) ==> Duplicated(s, text)
    ensures Sorted(s) && s[0].text != s[1].text && Duplicated(s, text) ==> Duplicated(s[1..], text)
  {
    if i, j :| 0 <= i < j < |s[1..]| && s[1..][i].text == text && s[1..][j].text == text {
      assert s[i + 1].text == text && s[j + 1].text == text;
    }
    if Sorted(s) && s[0].text != s[1].text && Duplicated(s, text) {
      var i, j :| 0 <= i < j < |s| && s[i].text == text && s[j].text == text;
      HeadBelowRest(s);
      assert s[1..][i - 1].text == text && s[1..][j - 1].text == text;
    }
  }

  /** On sorted targets the neighbour test finds the least duplicated text. */
  lemma {:induction false} AdjacentIsLeast(s: seq<Target>)
    requires Sorted(s) && FirstAdjacent(s).Some?
    ensures LeastDuplicate(s, FirstAdjacent(s).value)
  {
    var text := FirstAdjacent(s).value;
    if s[0].text == s[1].text {
      forall other | Duplicated(s, other)
        ensures !LexLess(other, text)
      {
        var i, j :| 0 <= i < j < |s| && s[i].text == other && s[j].text == other;
        assert !TextLess(s[j], s[0]);
      }
    } else {
      AdjacentIsLeast(s[1..]);
      DuplicatedTail(s, text);
      forall other | Duplicated(s, other)
        ensures !LexLess(other, text)
      {
        DuplicatedTail(s, other);
      }
    }
  }

  /** The duplicate that is reported is the least duplicated text of the input. */
  lemma {:induction false} ReportedIsLeast(s: seq<Target>)
    requires FirstAdjacent(SortTargets(s)).Some?
    ensures LeastDuplicate(s, FirstAdjacent(SortTargets(s)).value)
  {
    var sorted := SortTargets(s);
    SortTargetsExact(s);
    AdjacentIsLeast(sorted);
    DuplicatedPermuted(sorted, s, FirstAdjacent(sorted).value);
    forall other | Duplicated(s, other)
      ensures !LexLess(other, FirstAdjacent(sorted).value)
    {
      DuplicatedPermuted(s, sorted, other);
    }
  }

  /** The outcome of the neighbour test does not depend on the order of the input. */
  lemma {:induction false} SameDuplicate(a: seq<Target>, b: seq<Target>)
    requires multiset(a) == multiset(b)
    ensures FirstAdjacent(SortTargets(a)) == FirstAdjacent(SortTargets(b))
  {
    var x, y := FirstAdjacent(SortTargets(a)), FirstAdjacent(SortTargets(b));
    NeighbourTestFindsAll(a);
    NeighbourTestFindsAll(b);
    if x.None? {
      DistinctByPermutation(a, b, TextOf);
    } else if y.None? {
      DistinctByPermutation(b, a, TextOf);
    } else {
      ReportedIsLeast(a);
      ReportedIsLeast(b);
      DuplicatedPermuted(a, b, x.value);
      DuplicatedPermuted(b, a, y.value);
      LexTotal(x.value, y.value);
    }
  }

  lemma {:induction false} SortIgnoresOrder(a: seq<Target>, b: seq<Target>)
    requires multiset(a) == multiset(b) && DistinctBy(a, TextOf)
    ensures SortTargets(a) == SortTargets(b)
  {
    DistinctByPermutation(a, b, TextOf);
    NeighbourTestFindsAll(a);
    NeighbourTestFindsAll(b);
    SortTargetsExact(a);
    SortTargetsExact(b);
    FirstAdjacentExact(SortTargets(a));
    FirstAdjacentExact(SortTargets(b));
    PermutationMembers(SortTargets(a), SortTargets(b));
    forall x: Target, y: Target | TextLess(x, y)
      ensures !TextLess(y, x)
    {
      LexAsymmetric(x.text, y.text);
    }
    StrictlySortedUnique(SortTargets(a), SortTargets(b), TextLess);
  }

  // ----- requests

  datatype Request = Request(
    content: string,
    events: seq<Target>,
    addresses: seq<Target>,
    kindHints: seq<nat>,
    maximumSignedBytes: nat)

  /** The last stage: sort both target lists and refuse neighbouring duplicates. */
  function Canonicalized(content: string, events: seq<Target>, addresses: seq<Target>, hints: seq<nat>, size: nat)
    : Result<Request, DeletionError>
  {
    var es, ads := SortTargets(events), SortTargets(addresses);
    if FirstAdjacent(es).Some? then Err(DuplicateEventTarget(FirstAdjacent(es).value))
    else if FirstAdjacent(ads).Some? then Err(DuplicateAddressTarget(FirstAdjacent(ads).value))
    else Ok(Request(content, es, ads, hints, size))
  }

  function Author(content: string, events: seq<EventTarget>, addresses: seq<AddressTarget>)
    : Result<Request, DeletionError>
  {
    if Utf8Len(content) > CONTENT_MAX_BYTES then Err(ContentTooLarge(Utf8Len(content)))
    else if events == [] && addresses == [] then Err(TargetMissing)
    else
      var hints := KindHints(events, addresses);
      if hints.Err? then Err(hints.error)
      else
        var size := WireSize(content, events, addresses, hints.value);
        if size.Err? then Err(size.error)
        else Canonicalized(content, events, addresses, hints.value, size.value)
  }

  method NewDeletionRequest(content: string, events: seq<EventTarget>, addresses: seq<AddressTarget>)
    returns (r: Result<Request, DeletionError>)
    ensures r == Author(content, events, addresses)
  {
    if Utf8Len(content) > CONTENT_MAX_BYTES {
      return Err(ContentTooLarge(Utf8Len(content)));
    }
    if events == [] && addresses == [] {
      return Err(TargetMissing);
    }
    var hints := CollectKindHints(events, addresses);
    if hints.Err? {
      return Err(hints.error);
    }
    var size := ValidateWireSize(content, events, addresses, hints.value);
    if size.Err? {
      return Err(size.error);
    }
    var es := SortTargets(events);
    if FirstAdjacent(es).Some? {
      return Err(DuplicateEventTarget(FirstAdjacent(es).value));
    }
    var ads := SortTargets(addresses);
    if FirstAdjacent(ads).Some? {
      return Err(DuplicateAddressTarget(FirstAdjacent(ads).value));
    }
    return Ok(Request(content, es, ads, hints.value, size.value));
  }

  /** The wire tags of an accepted request. */
  function WireTags(r: Request): seq<Tag> {
    RequestTags(r.events, r.addresses, r.kindHints)
  }

  lemma {:induction false} PairsSum(name: string, targets: seq<Target>, weight: Tag -> int, targetWeight: Target -> int)
    requires forall t :: targetWeight(t) == weight([name, t.text])
    ensures SumBy(Pairs(name, Texts(targets)), weight) == SumBy(targets, targetWeight)
  {
    if targets != [] {
      var init, last := targets[..|targets| - 1], targets[|targets| - 1];
      PairsSum(name, init, weight, targetWeight);
      SumBySnoc(targets, targetWeight);
      SumBySnoc(Pairs(name, Texts(targets)), weight);
      assert Texts(targets)[..|targets| - 1] == Texts(init);
    }
  }

  lemma PairsSumPermutation(name: string, a: seq<Target>, b: seq<Target>, weight: Tag -> int)
    requires multiset(a) == multiset(b)
    ensures SumBy(Pairs(name, Texts(a)), weight) == SumBy(Pairs(name, Texts(b)), weight)
  {
    var targetWeight := (t: Target) => weight([name, t.text]);
    PairsSum(name, a, weight, targetWeight);
    PairsSum(name, b, weight, targetWeight);
    SumByPermutation(a, b, targetWeight);
  }

  lemma GroupedSum(es: seq<string>, ads: seq<string>, ks: seq<string>, weight: Tag -> int)
    ensures SumBy(GroupedTags(es, ads, ks), weight)
         == SumBy(Pairs("e", es), weight) + SumBy(Pairs("a", ads), weight) + SumBy(Pairs("k", ks), weight)
  {
    SumByConcat(Pairs("e", es) + Pairs("a", ads), Pairs("k", ks), weight);
    SumByConcat(Pairs("e", es), Pairs("a", ads), weight);
  }

  /** Reordering targets changes no total over the wire tags. */
  lemma TagSumsIgnoreOrder(events: seq<Target>, addresses: seq<Target>,
                           events': seq<Target>, addresses': seq<Target>, hints: seq<nat>, weight: Tag -> int)
    requires multiset(events) == multiset(events') && multiset(addresses) == multiset(addresses')
    ensures SumBy(RequestTags(events, addresses, hints), weight) == SumBy(RequestTags(events', addresses', hints), weight)
    ensures |RequestTags(events, addresses, hints)| == |RequestTags(events', addresses', hints)|
  {
    PairsSumPermutation("e", events, events', weight);
    PairsSumPermutation("a", addresses, addresses', weight);
    GroupedSum(Texts(events), Texts(addresses), KindTexts(hints), weight);
    GroupedSum(Texts(events'), Texts(addresses'), KindTexts(hints), weight);
    PermutationMembers(events, events');
    PermutationMembers(addresses, addresses');
  }

  lemma MeasuredSizeIgnoresOrder(content: string, events: seq<Target>, addresses: seq<Target>,
                                 events': seq<Target>, addresses': seq<Target>, hints: seq<nat>)
    requires multiset(events) == multiset(events') && multiset(addresses) == multiset(addresses')
    ensures MeasuredSize(content, RequestTags(events, addresses, hints))
         == MeasuredSize(content, RequestTags(events', addresses', hints))
  {
    TagsJsonBytes(RequestTags(events, addresses, hints));
    TagsJsonBytes(RequestTags(events', addresses', hints));
    TagSumsIgnoreOrder(events, addresses, events', addresses', hints, TagCost);
  }

  lemma FixedBytesAgree()
    ensures SIGNED_EVENT_FIXED_MAX_BYTES == FixedBytes(KIND_DELETION_REQUEST) + 20
  {
    assert NatText(5) == "5";
  }

  /** The measured size is the printed length at the largest timestamp, and bounds all others. */
  lemma MeasuredIsPrinted(content: string, tags: seq<Tag>, id: string, pubkey: string, sig: string, createdAt: U64)
    requires HexIdentity(id, 64) && HexIdentity(pubkey, 64) && HexIdentity(sig, 128)
    ensures Utf8Len(SignedEventJson(id, pubkey, U64_MAX, KIND_DELETION_REQUEST, tags, content, sig))
         == MeasuredSize(content, tags)
    ensures Utf8Len(SignedEventJson(id, pubkey, createdAt, KIND_DELETION_REQUEST, tags, content, sig))
         <= MeasuredSize(content, tags)
  {
    SignedEventAtMost(id, pubkey, createdAt, KIND_DELETION_REQUEST, tags, content, sig);
    FixedBytesAgree();
  }

  lemma {:induction false} WireSizeValue(content: string, events: seq<Target>, addresses: seq<Target>, hints: seq<nat>,
                                         size: nat)
    requires WireSize(content, events, addresses, hints) == Ok(size)
    ensures size == MeasuredSize(content, RequestTags(events, addresses, hints)) <= EVENT_WIRE_MAX_BYTES
  {
  }

  lemma {:induction false} AcceptedStages(content: string, events: seq<EventTarget>, addresses: seq<AddressTarget>,
                                          r: Request)
    returns (hints: seq<nat>, size: nat)
    requires Author(content, events, addresses) == Ok(r)
    ensures KindHints(events, addresses) == Ok(hints)
    ensures WireSize(content, events, addresses, hints) == Ok(size)
    ensures Canonicalized(content, events, addresses, hints, size) == Ok(r)
  {
    hints := KindHints(events, addresses).value;
    size := WireSize(content, events, addresses, hints).value;
  }

  lemma {:induction false} CanonicalizedParts(content: string, events: seq<Target>, addresses: seq<Target>,
                                              hints: seq<nat>, size: nat, r: Request)
    requires Canonicalized(content, events, addresses, hints, size) == Ok(r)
    ensures r == Request(content, SortTargets(events), SortTargets(addresses), hints, size)
    ensures FirstAdjacent(r.events).None? && FirstAdjacent(r.addresses).None?
  {
  }

  lemma {:induction false} KindHintsValue(events: seq<EventTarget>, addresses: seq<AddressTarget>, hints: seq<nat>)
    requires KindHints(events, addresses) == Ok(hints)
    ensures hints == SortDedup(TargetKinds(events) + TargetKinds(addresses))
  {
  }

  /** The parts of a request, each as a function of the inputs. */
  ghost predicate HasParts(content: string, events: seq<Target>, addresses: seq<Target>, r: Request) {
    && r.content == content && r.events == SortTargets(events) && r.addresses == SortTargets(addresses)
    && r.kindHints == SortDedup(TargetKinds(events) + TargetKinds(addresses))
    && r.maximumSignedBytes == MeasuredSize(content, RequestTags(events, addresses, r.kindHints))
    && r.maximumSignedBytes <= EVENT_WIRE_MAX_BYTES
    && FirstAdjacent(r.events).None? && FirstAdjacent(r.addresses).None?
  }

  lemma {:induction false} AcceptedParts(content: string, events: seq<EventTarget>, addresses: seq<AddressTarget>,
                                         r: Request)
    requires Author(content, events, addresses) == Ok(r)
    ensures HasParts(content, events, addresses, r)
  {
    var hints, size := AcceptedStages(content, events, addresses, r);
    CanonicalizedParts(content, events, addresses, hints, size, r);
    KindHintsValue(events, addresses, hints);
    WireSizeValue(content, events, addresses, hints, size);
  }

  /** The size stored in an accepted request, though measured before sorting, is the exact length of
      its canonical signed JSON at the largest timestamp, so it bounds every signed form of it. */
  lemma {:induction false} StoredSizeIsPrinted(content: string, events: seq<EventTarget>, addresses: seq<AddressTarget>,
                                               r: Request, id: string, pubkey: string, sig: string, createdAt: U64)
    requires HexIdentity(id, 64) && HexIdentity(pubkey, 64) && HexIdentity(sig, 128)
    requires Author(content, events, addresses) == Ok(r)
    ensures Utf8Len(SignedEventJson(id, pubkey, U64_MAX, KIND_DELETION_REQUEST, WireTags(r), r.content, sig))
         == r.maximumSignedBytes <= EVENT_WIRE_MAX_BYTES
    ensures Utf8Len(SignedEventJson(id, pubkey, createdAt, KIND_DELETION_REQUEST, WireTags(r), r.content, sig))
         <= r.maximumSignedBytes
  {
    AcceptedParts(content, events, addresses, r);
    SortTargetsExact(events);
    SortTargetsExact(addresses);
    MeasuredSizeIgnoresOrder(content, events, addresses, r.events, r.addresses, r.kindHints);
    MeasuredIsPrinted(content, WireTags(r), id, pubkey, sig, createdAt);
  }

  /** An accepted request keeps exactly its targets, in strictly ascending order of text, and
      carries exactly the distinct kinds among them in ascending order. */
  lemma {:induction false} AcceptedIsCanonical(content: string, events: seq<EventTarget>, addresses: seq<AddressTarget>,
                                               r: Request)
    requires Author(content, events, addresses) == Ok(r)
    ensures multiset(r.events) == multiset(events) && StrictlySorted(r.events, TextLess)
    ensures multiset(r.addresses) == multiset(addresses) && StrictlySorted(r.addresses, TextLess)
    ensures StrictlySorted(r.kindHints, NatLess)
    ensures forall k :: k in r.kindHints <==>
              (exists t | t in events :: t.kind == k) || (exists t | t in addresses :: t.kind == k)
  {
    AcceptedParts(content, events, addresses, r);
    SortTargetsExact(events);
    SortTargetsExact(addresses);
    FirstAdjacentExact(r.events);
    FirstAdjacentExact(r.addresses);
    SortDedupExact(TargetKinds(events) + TargetKinds(addresses));
    forall k: nat
      ensures k in r.kindHints <==>
                (exists t | t in events :: t.kind == k) || (exists t | t in addresses :: t.kind == k)
    {
      KindOfTarget(events, k);
      KindOfTarget(addresses, k);
    }
  }

  // ----- what the wire tags of a request are

  /** The tag names a target of one of the lists, or a kind among them. */
  ghost predicate NamesTarget(tag: Tag, events: seq<Target>, addresses: seq<Target>) {
    || NamesText(tag, "e", events) || NamesText(tag, "a", addresses)
    || (exists t: Target | t in events || t in addresses :: tag == ["k", NatText(t.kind)])
  }

  /** Event tags come first, then address tags, then kinds; each group ascends strictly. */
  ghost predicate WrittenBefore(a: Tag, b: Tag) {
    || (|a| == |b| == 2 && (a[0], b[0]) in {("e", "a"), ("e", "k"), ("a", "k")})
    || (exists s, t | LexLess(s, t) :: (a == ["e", s] && b == ["e", t]) || (a == ["a", s] && b == ["a", t]))
    || (exists m: nat, n: nat | m < n :: a == ["k", NatText(m)] && b == ["k", NatText(n)])
  }

  lemma {:induction false} WireTagAt(r: Request, i: nat)
    requires i < |WireTags(r)|
    ensures |WireTags(r)| == |r.events| + |r.addresses| + |r.kindHints|
    ensures WireTags(r)[i] == if i < |r.events| then ["e", r.events[i].text]
                              else if i < |r.events| + |r.addresses| then ["a", r.addresses[i - |r.events|].text]
                              else ["k", NatText(r.kindHints[i - |r.events| - |r.addresses|])]
  {
  }

  lemma {:induction false} WireTagOrder(r: Request, i: nat, j: nat)
    requires i < j < |WireTags(r)|
    requires StrictlySorted(r.events, TextLess) && StrictlySorted(r.addresses, TextLess)
    requires StrictlySorted(r.kindHints, NatLess)
    ensures WrittenBefore(WireTags(r)[i], WireTags(r)[j])
  {
    WireTagAt(r, i);
    WireTagAt(r, j);
    var e, ea := |r.events|, |r.events| + |r.addresses|;
    if j < e {
      assert TextLess(r.events[i], r.events[j]);
    } else if e <= i && j < ea {
      assert TextLess(r.addresses[i - e], r.addresses[j - e]);
    } else if ea <= i {
      assert NatLess(r.kindHints[i - ea], r.kindHints[j - ea]);
    }
  }

  ghost predicate NamesText(tag: Tag, name: string, targets: seq<Target>) {
    exists t | t in targets :: tag == [name, t.text]
  }

  ghost predicate NamesKind(tag: Tag, kinds: seq<nat>) {
    exists k | k in kinds :: tag == ["k", NatText(k)]
  }

  lemma {:induction false} TextTagAt(r: Request, tag: Tag)
    requires NamesText(tag, "e", r.events) || NamesText(tag, "a", r.addresses)
    ensures tag in WireTags(r)
  {
    if NamesText(tag, "e", r.events) {
      var t :| t in r.events && tag == ["e", t.text];
      var i :| 0 <= i < |r.events| && r.events[i] == t;
      WireTagAt(r, i);
    } else {
      var t :| t in r.addresses && tag == ["a", t.text];
      var i :| 0 <= i < |r.addresses| && r.addresses[i] == t;
      WireTagAt(r, |r.events| + i);
    }
  }

  lemma {:induction false} KindTagAt(r: Request, tag: Tag)
    requires NamesKind(tag, r.kindHints)
    ensures tag in WireTags(r)
  {
    var k :| k in r.kindHints && tag == ["k", NatText(k)];
    var i :| 0 <= i < |r.kindHints| && r.kindHints[i] == k;
    WireTagAt(r, |r.events| + |r.addresses| + i);
  }

  lemma {:induction false} WireTagNames(r: Request, tag: Tag)
    ensures tag in WireTags(r) <==>
              NamesText(tag, "e", r.events) || NamesText(tag, "a", r.addresses) || NamesKind(tag, r.kindHints)
  {
    if tag in WireTags(r) {
      var i :| 0 <= i < |WireTags(r)| && WireTags(r)[i] == tag;
      WireTagAt(r, i);
    } else if NamesText(tag, "e", r.events) || NamesText(tag, "a", r.addresses) {
      TextTagAt(r, tag);
    } else if NamesKind(tag, r.kindHints) {
      KindTagAt(r, tag);
    }
  }

  lemma {:induction false} SameText(tag: Tag, name: string, a: seq<Target>, b: seq<Target>)
    requires forall t :: t in a <==> t in b
    ensures NamesText(tag, name, a) <==> NamesText(tag, name, b)
  {
  }

  lemma {:induction false} SameKind(tag: Tag, kinds: seq<nat>, events: seq<Target>, addresses: seq<Target>)
    requires forall k :: k in kinds <==>
               (exists t | t in events :: t.kind == k) || (exists t | t in addresses :: t.kind == k)
    ensures NamesKind(tag, kinds) <==> exists t: Target | t in events || t in addresses :: tag == ["k", NatText(t.kind)]
  {
    if t :| (t in events || t in addresses) && tag == ["k", NatText(t.kind)] {
      assert t.kind in kinds;
    }
  }

  lemma {:induction false} SameNames(r: Request, events: seq<Target>, addresses: seq<Target>, tag: Tag)
    requires forall t :: t in r.events <==> t in events
    requires forall t :: t in r.addresses <==> t in addresses
    requires forall k :: k in r.kindHints <==>
               (exists t | t in events :: t.kind == k) || (exists t | t in addresses :: t.kind == k)
    ensures tag in WireTags(r) <==> NamesTarget(tag, events, addresses)
  {
    WireTagNames(r, tag);
    SameText(tag, "e", r.events, events);
    SameText(tag, "a", r.addresses, addresses);
    SameKind(tag, r.kindHints, events, addresses);
  }

  /** The wire tags of an accepted request name exactly the targets and kinds it was given, in one strict order. */
  lemma {:induction false} WireTagsExact(content: string, events: seq<EventTarget>, addresses: seq<AddressTarget>,
                                         r: Request)
    requires Author(content, events, addresses) == Ok(r)
    ensures r.content == content
    ensures forall tag :: tag in WireTags(r) <==> NamesTarget(tag, events, addresses)
    ensures forall i, j :: 0 <= i < j < |WireTags(r)| ==> WrittenBefore(WireTags(r)[i], WireTags(r)[j])
  {
    AcceptedIsCanonical(content, events, addresses, r);
    AcceptedParts(content, events, addresses, r);
    PermutationMembers<Target>(r.events, events);
    PermutationMembers<Target>(r.addresses, addresses);
    forall tag: Tag
      ensures tag in WireTags(r) <==> NamesTarget(tag, events, addresses)
    {
      SameNames(r, events, addresses, tag);
    }
    forall i, j | 0 <= i < j < |WireTags(r)|
      ensures WrittenBefore(WireTags(r)[i], WireTags(r)[j])
    {
      WireTagOrder(r, i, j);
    }
  }

  lemma {:induction false} KindOfTarget(targets: seq<Target>, k: nat)
    ensures k in TargetKinds(targets) <==> exists t | t in targets :: t.kind == k
  {
    var kinds := TargetKinds(targets);
    if k in kinds {
      var i :| 0 <= i < |kinds| && kinds[i] == k;
      assert targets[i] in targets;
    }
    if t :| t in targets && t.kind == k {
      var i :| 0 <= i < |targets| && targets[i] == t;
      assert kinds[i] == k;
    }
  }

  // ----- exactly which inputs are accepted

  ghost predicate SmallTexts(targets: seq<Target>) {
    forall t | t in targets :: Utf8Len(t.text) <= TAG_ELEMENT_MAX_BYTES
  }

  /** Everything an authored request must satisfy, with no order of checking. */
  ghost predicate Acceptable(content: string, events: seq<EventTarget>, addresses: seq<AddressTarget>) {
    && Affordable(content, events, addresses)
    && DistinctBy<Target, string>(events, TextOf)
    && DistinctBy<Target, string>(addresses, TextOf)
  }

  /** There is a target, and content, tag count, tag bytes and measured size fit. */
  predicate Affordable(content: string, events: seq<EventTarget>, addresses: seq<AddressTarget>) {
    var hints := SortDedup(TargetKinds(events) + TargetKinds(addresses));
    var tags := RequestTags(events, addresses, hints);
    && Utf8Len(content) <= CONTENT_MAX_BYTES
    && (events != [] || addresses != [])
    && |events| + |addresses| + |hints| <= TAG_MAX_COUNT
    && SumBy(tags, ElementBytes) <= TAG_TOTAL_MAX_BYTES
    && MeasuredSize(content, tags) <= EVENT_WIRE_MAX_BYTES
  }

  lemma {:induction false} PairsSmall(name: string, targets: seq<Target>)
    requires Utf8Len(name) == 1
    ensures FirstLarge(Pairs(name, Texts(targets))).None? <==> SmallTexts(targets)
  {
    var tags := Pairs(name, Texts(targets));
    NoneLarge(name, tags);
    if SmallTags(tags) {
      forall t | t in targets
        ensures Utf8Len(t.text) <= TAG_ELEMENT_MAX_BYTES
      {
        var i :| 0 <= i < |targets| && targets[i] == t;
        assert SmallTag(tags[i]);
      }
    }
  }

  lemma {:induction false} KindTagsSmall(hints: seq<nat>)
    requires forall k | k in hints :: k <= TARGET_KIND_MAX
    ensures FirstLarge(Pairs("k", KindTexts(hints))).None?
  {
    var tags := Pairs("k", KindTexts(hints));
    OneByteNames();
    NoneLarge("k", tags);
    forall i | 0 <= i < |tags|
      ensures SmallTag(tags[i])
    {
      assert hints[i] in hints;
      NatTextLength(hints[i], 6);
      Pow10Table();
      NatTextBytes(hints[i]);
    }
  }

  lemma {:induction false} HintsInRange(events: seq<EventTarget>, addresses: seq<AddressTarget>)
    ensures forall k | k in SortDedup(TargetKinds(events) + TargetKinds(addresses)) :: k <= TARGET_KIND_MAX
  {
    var kinds := TargetKinds(events) + TargetKinds(addresses);
    SortDedupExact(kinds);
    forall k | k in kinds
      ensures k <= TARGET_KIND_MAX
    {
      var i :| 0 <= i < |kinds| && kinds[i] == k;
      assert k == if i < |events| then events[i].kind else addresses[i - |events|].kind;
    }
  }

  lemma {:induction false} EventTextsSmall(events: seq<EventTarget>)
    ensures SmallTexts(events)
  {
    forall t | t in events
      ensures Utf8Len(t.text) <= TAG_ELEMENT_MAX_BYTES
    {
      var i :| 0 <= i < |events| && events[i] == t;
      AsciiLength(events[i].text);
    }
  }

  lemma {:induction false} GroupsLarge(es: seq<string>, ads: seq<string>, ks: seq<string>)
    ensures FirstLarge(GroupedTags(es, ads, ks)).None? <==>
              FirstLarge(Pairs("e", es)).None? && FirstLarge(Pairs("a", ads)).None? && FirstLarge(Pairs("k", ks)).None?
  {
    FirstLargeConcat(Pairs("e", es) + Pairs("a", ads), Pairs("k", ks));
    FirstLargeConcat(Pairs("e", es), Pairs("a", ads));
  }

  lemma {:induction false} AddressTextsSmall(addresses: seq<AddressTarget>)
    ensures SmallTexts(addresses)
  {
    forall t | t in addresses
      ensures Utf8Len(t.text) <= TAG_ELEMENT_MAX_BYTES
    {
      var i :| 0 <= i < |addresses| && addresses[i] == t;
    }
  }

  /** No element of a request's tags is ever too large. */
  lemma {:induction false} NoneTooLarge(events: seq<EventTarget>, addresses: seq<AddressTarget>, hints: seq<nat>)
    requires hints == SortDedup(TargetKinds(events) + TargetKinds(addresses))
    ensures FirstLarge(RequestTags(events, addresses, hints)).None?
  {
    AddressTextsSmall(addresses);
    OneByteNames();
    HintsInRange(events, addresses);
    KindTagsSmall(hints);
    EventTextsSmall(events);
    PairsSmall("e", events);
    PairsSmall("a", addresses);
    GroupsLarge(Texts(events), Texts(addresses), KindTexts(hints));
  }

  lemma {:induction false} CanonicalizedExact(content: string, events: seq<Target>, addresses: seq<Target>,
                                              hints: seq<nat>, size: nat)
    ensures Canonicalized(content, events, addresses, hints, size).Ok?
       <==> DistinctBy(events, TextOf) && DistinctBy(addresses, TextOf)
  {
    NeighbourTestFindsAll(events);
    NeighbourTestFindsAll(addresses);
  }

  lemma {:induction false} WireSizeExact(content: string, events: seq<EventTarget>, addresses: seq<AddressTarget>,
                                         hints: seq<nat>)
    requires hints == SortDedup(TargetKinds(events) + TargetKinds(addresses))
    ensures WireSize(content, events, addresses, hints).Ok? <==>
              && |events| + |addresses| + |hints| <= TAG_MAX_COUNT
              && SumBy(RequestTags(events, addresses, hints), ElementBytes) <= TAG_TOTAL_MAX_BYTES
              && MeasuredSize(content, RequestTags(events, addresses, hints)) <= EVENT_WIRE_MAX_BYTES
  {
    NoneTooLarge(events, addresses, hints);
  }

  /** Every stage of authoring succeeds. */
  ghost predicate StagesSucceed(content: string, events: seq<EventTarget>, addresses: seq<AddressTarget>) {
    && Utf8Len(content) <= CONTENT_MAX_BYTES
    && (events != [] || addresses != [])
    && KindHints(events, addresses).Ok?
    && var hints := KindHints(events, addresses).value;
    && WireSize(content, events, addresses, hints).Ok?
    && Canonicalized(content, events, addresses, hints, WireSize(content, events, addresses, hints).value).Ok?
  }

  lemma {:induction false} AuthorStages(content: string, events: seq<EventTarget>, addresses: seq<AddressTarget>)
    ensures Author(content, events, addresses).Ok? <==> StagesSucceed(content, events, addresses)
  {
  }

  lemma {:induction false} KindHintsExact(events: seq<EventTarget>, addresses: seq<AddressTarget>)
    ensures var hints := SortDedup(TargetKinds(events) + TargetKinds(addresses));
            && (KindHints(events, addresses).Ok? <==> |events| + |addresses| + |hints| <= TAG_MAX_COUNT)
            && (KindHints(events, addresses).Ok? ==> KindHints(events, addresses).value == hints)
  {
  }

  lemma {:induction false} AcceptableStages(content: string, events: seq<EventTarget>, addresses: seq<AddressTarget>)
    ensures StagesSucceed(content, events, addresses) <==> Acceptable(content, events, addresses)
  {
    KindHintsExact(events, addresses);
    var hints := SortDedup(TargetKinds(events) + TargetKinds(addresses));
    WireSizeExact(content, events, addresses, hints);
    if WireSize(content, events, addresses, hints).Ok? {
      CanonicalizedExact(content, events, addresses, hints, WireSize(content, events, addresses, hints).value);
    }
  }

  /** A request is authored exactly when its inputs are acceptable. */
  lemma {:induction false} AcceptsExactly(content: string, events: seq<EventTarget>, addresses: seq<AddressTarget>)
    ensures Author(content, events, addresses).Ok? <==> Acceptable(content, events, addresses)
  {
    AuthorStages(content, events, addresses);
    AcceptableStages(content, events, addresses);
  }

  lemma {:induction false} LeastIsReported(s: seq<Target>, text: string)
    ensures FirstAdjacent(SortTargets(s)) == Some(text) <==> LeastDuplicate(s, text)
  {
    var found := FirstAdjacent(SortTargets(s));
    if found.Some? {
      ReportedIsLeast(s);
      LexTotal(found.value, text);
    } else {
      NeighbourTestFindsAll(s);
      NoneDuplicated(s, text);
    }
  }

  lemma {:induction false} NoneDuplicated(s: seq<Target>, text: string)
    requires DistinctBy(s, TextOf)
    ensures !Duplicated(s, text)
  {
    forall i, j | 0 <= i < j < |s|
      ensures s[i].text != s[j].text
    {
      assert TextOf(s[i]) != TextOf(s[j]);
    }
  }

  lemma {:induction false} AuthorCanonicalizes(content: string, events: seq<EventTarget>, addresses: seq<AddressTarget>)
    requires Affordable(content, events, addresses)
    ensures var hints := SortDedup(TargetKinds(events) + TargetKinds(addresses));
            && WireSize(content, events, addresses, hints).Ok?
            && Author(content, events, addresses)
               == Canonicalized(content, events, addresses, hints, WireSize(content, events, addresses, hints).value)
  {
    KindHintsExact(events, addresses);
    WireSizeExact(content, events, addresses, SortDedup(TargetKinds(events) + TargetKinds(addresses)));
  }

  lemma {:induction false} UnaffordableFirst(content: string, events: seq<EventTarget>, addresses: seq<AddressTarget>)
    requires !Affordable(content, events, addresses)
    ensures Author(content, events, addresses).Err?
    ensures !Author(content, events, addresses).error.DuplicateEventTarget?
    ensures !Author(content, events, addresses).error.DuplicateAddressTarget?
  {
    KindHintsExact(events, addresses);
    WireSizeExact(content, events, addresses, SortDedup(TargetKinds(events) + TargetKinds(addresses)));
  }

  /** A duplicate is reported exactly when everything else fits: the least event id if any is duplicated, else the
      least coordinate. */
  lemma {:induction false} DuplicateReported(content: string, events: seq<EventTarget>, addresses: seq<AddressTarget>,
                                             text: string)
    ensures Author(content, events, addresses) == Err(DuplicateEventTarget(text)) <==>
              Affordable(content, events, addresses) && LeastDuplicate(events, text)
    ensures Author(content, events, addresses) == Err(DuplicateAddressTarget(text)) <==>
              && Affordable(content, events, addresses) && DistinctBy<Target, string>(events, TextOf)
              && LeastDuplicate(addresses, text)
  {
    LeastIsReported(events, text);
    LeastIsReported(addresses, text);
    NeighbourTestFindsAll(events);
    if Affordable(content, events, addresses) {
      AuthorCanonicalizes(content, events, addresses);
    } else {
      UnaffordableFirst(content, events, addresses);
    }
  }

  lemma {:induction false} HintsIgnoreOrder(events: seq<Target>, addresses: seq<Target>,
                                            events': seq<Target>, addresses': seq<Target>)
    requires multiset(events) == multiset(events') && multiset(addresses) == multiset(addresses')
    ensures SortDedup(TargetKinds(events) + TargetKinds(addresses)) == SortDedup(TargetKinds(events') + TargetKinds(addresses'))
  {
    var kinds, kinds' := TargetKinds(events) + TargetKinds(addresses), TargetKinds(events') + TargetKinds(addresses');
    SortDedupExact(kinds);
    SortDedupExact(kinds');
    PermutationMembers(events, events');
    PermutationMembers(addresses, addresses');
    forall k
      ensures k in kinds <==> k in kinds'
    {
      KindOfTarget(events, k);
      KindOfTarget(addresses, k);
      KindOfTarget(events', k);
      KindOfTarget(addresses', k);
    }
    StrictlySortedUnique(SortDedup(kinds), SortDedup(kinds'), NatLess);
  }

  /** Both target lists are reorderings. */
  ghost predicate Reordered(events: seq<Target>, addresses: seq<Target>, events': seq<Target>, addresses': seq<Target>) {
    multiset(events) == multiset(events') && multiset(addresses) == multiset(addresses')
  }

  lemma {:induction false} KindHintsIgnoreOrder(events: seq<EventTarget>, addresses: seq<AddressTarget>,
                                                events': seq<EventTarget>, addresses': seq<AddressTarget>)
    requires Reordered(events, addresses, events', addresses')
    ensures |events| == |events'| && |addresses| == |addresses'|
    ensures KindHints(events, addresses) == KindHints(events', addresses')
  {
    HintsIgnoreOrder(events, addresses, events', addresses');
    PermutationMembers<Target>(events, events');
    PermutationMembers<Target>(addresses, addresses');
  }

  lemma {:induction false} WireSizeIgnoresOrder(content: string, events: seq<EventTarget>, addresses: seq<AddressTarget>,
                                                events': seq<EventTarget>, addresses': seq<AddressTarget>, hints: seq<nat>)
    requires Reordered(events, addresses, events', addresses') && |events| == |events'| && |addresses| == |addresses'|
    requires hints == SortDedup(TargetKinds(events) + TargetKinds(addresses))
    ensures WireSize(content, events, addresses, hints) == WireSize(content, events', addresses', hints)
  {
    HintsIgnoreOrder(events, addresses, events', addresses');
    NoneTooLarge(events, addresses, hints);
    NoneTooLarge(events', addresses', hints);
    TagSumsIgnoreOrder(events, addresses, events', addresses', hints, ElementBytes);
    MeasuredSizeIgnoresOrder(content, events, addresses, events', addresses', hints);
  }

  lemma {:induction false} CanonicalizedIgnoresOrder(content: string, events: seq<Target>, addresses: seq<Target>,
                                                     events': seq<Target>, addresses': seq<Target>,
                                                     hints: seq<nat>, size: nat)
    requires Reordered(events, addresses, events', addresses')
    ensures Canonicalized(content, events, addresses, hints, size) == Canonicalized(content, events', addresses', hints, size)
  {
    SameDuplicate(events, events');
    SameDuplicate(addresses, addresses');
    NeighbourTestFindsAll(events);
    NeighbourTestFindsAll(addresses);
    if DistinctBy(events, TextOf) && DistinctBy(addresses, TextOf) {
      SortIgnoresOrder(events, events');
      SortIgnoresOrder(addresses, addresses');
    }
  }

  /** Every ordering of the inputs has the identical outcome, request or error. */
  lemma {:induction false} AuthorIgnoresOrder(content: string, events: seq<EventTarget>, addresses: seq<AddressTarget>,
                                              events': seq<EventTarget>, addresses': seq<AddressTarget>)
    requires multiset(events) == multiset(events') && multiset(addresses) == multiset(addresses')
    ensures Author(content, events', addresses') == Author(content, events, addresses)
  {
    KindHintsIgnoreOrder(events, addresses, events', addresses');
    if KindHints(events, addresses).Ok? {
      var hints := KindHints(events, addresses).value;
      WireSizeIgnoresOrder(content, events, addresses, events', addresses', hints);
      var size := WireSize(content, events, addresses, hints);
      if size.Ok? {
        CanonicalizedIgnoresOrder(content, events, addresses, events', addresses', hints, size.value);
      }
    }
  }

  /** The oversized-element error cannot be reported. */
  lemma {:induction false} ElementErrorUnreachable(content: string, events: seq<EventTarget>, addresses: seq<AddressTarget>)
    ensures Author(content, events, addresses).Err? ==> !Author(content, events, addresses).error.TagElementTooLarge?
  {
    if KindHints(events, addresses).Ok? {
      var hints := KindHints(events, addresses).value;
      KindHintsExact(events, addresses);
      WireSizeErrors(content, events, addresses, hints);
      var size := WireSize(content, events, addresses, hints);
      if size.Ok? {
        CanonicalizedErrors(content, events, addresses, hints, size.value);
      }
    }
  }

  lemma {:induction false} WireSizeErrors(content: string, events: seq<EventTarget>, addresses: seq<AddressTarget>,
                                          hints: seq<nat>)
    requires hints == SortDedup(TargetKinds(events) + TargetKinds(addresses))
    ensures WireSize(content, events, addresses, hints).Err? ==>
              !WireSize(content, events, addresses, hints).error.TagElementTooLarge?
  {
    NoneTooLarge(events, addresses, hints);
  }

  lemma CanonicalizedErrors(content: string, events: seq<Target>, addresses: seq<Target>, hints: seq<nat>, size: nat)
    ensures Canonicalized(content, events, addresses, hints, size).Err? ==>
              !Canonicalized(content, events, addresses, hints, size).error.TagElementTooLarge?
  {
  }
}
