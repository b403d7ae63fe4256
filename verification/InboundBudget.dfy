/** The budgets that received comments and deletion requests must keep, in the exact sizes they count:
    crates/event_codec/src/deletion/reconciliation_v1.rs and crates/event_codec/src/comment/inbound/registry_v7.rs. */
module InboundBudget {
  import opened Json
  import opened Results
  import opened Sequences
  import opened Text

  const TAG_MAX_COUNT: nat := 1024
  const TAG_TOTAL_ELEMENT_MAX_COUNT: nat := 4096
  const TAG_ELEMENT_MAX_BYTES: nat := 4 * 1024
  const TAG_TOTAL_MAX_BYTES: nat := 128 * 1024
  const EVENT_WIRE_MAX_BYTES: nat := 256 * 1024

  predicate SmallElements(tag: Tag) {
    forall i :: 0 <= i < |tag| ==> Utf8Len(tag[i]) <= TAG_ELEMENT_MAX_BYTES
  }

  /** `fixed` is the size of a signed event of the kind without timestamp, tags and content. */
  predicate WithinBudgets(fixed: nat, tags: seq<Tag>, content: string, createdAtDigits: nat) {
    && |tags| <= TAG_MAX_COUNT
    && SumBy(tags, ElementCount) <= TAG_TOTAL_ELEMENT_MAX_COUNT
    && (forall i :: 0 <= i < |tags| ==> SmallElements(tags[i]))
    && SumBy(tags, ElementBytes) <= TAG_TOTAL_MAX_BYTES
    && fixed + createdAtDigits + Utf8Len(TagsJson(tags)) + Utf8Len(JsonString(content)) <= EVENT_WIRE_MAX_BYTES
  }

  // ----- the counting loops

  datatype BudgetFault =
    | TagCountExceeded(actual: nat)
    | TagElementCountExceeded(actual: nat)
    | TagElementTooLarge(tag: nat, element: nat, actual: nat)
    | TagBytesExceeded(actual: nat)
    | EventWireTooLarge(actual: nat)

  /** Every element before a place is small. */
  ghost predicate SmallBefore(tags: seq<Tag>, t: nat, e: nat)
    requires t <= |tags| && (t < |tags| ==> e <= |tags[t]|)
  {
    && (forall i :: 0 <= i < t ==> SmallElements(tags[i]))
    && (t < |tags| ==> forall i :: 0 <= i < e ==> Utf8Len(tags[t][i]) <= 4_096)
  }

  /** What a reported budget means: it is exceeded by the exact amount told, and the budgets before it are kept. */
  ghost predicate Exceeds(fault: BudgetFault, fixed: nat, tags: seq<Tag>, content: string, digits: nat) {
    var elements := SumBy(tags, ElementCount);
    match fault
    case TagCountExceeded(n) => n == |tags| > 1_024
    case TagElementCountExceeded(n) => |tags| <= 1_024 && n == (if elements > USIZE_MAX then USIZE_MAX else elements) > 4_096
    case TagElementTooLarge(t, e, n) =>
      && |tags| <= 1_024 && elements <= 4_096
      && t < |tags| && e < |tags[t]| && n == Utf8Len(tags[t][e]) > 4_096 && SmallBefore(tags, t, e)
    case TagBytesExceeded(n) =>
      && |tags| <= 1_024 && elements <= 4_096 && SmallBefore(tags, |tags|, 0)
      && n == SumBy(tags, ElementBytes) > 131_072
    case EventWireTooLarge(n) =>
      && |tags| <= 1_024 && elements <= 4_096 && SmallBefore(tags, |tags|, 0) && SumBy(tags, ElementBytes) <= 131_072
      && n == fixed + digits + Utf8Len(TagsJson(tags)) + Utf8Len(JsonString(content)) > 262_144
  }

  lemma CountAppend(tags: seq<Tag>, tag: Tag)
    ensures SumBy(tags + [tag], ElementCount) == SumBy(tags, ElementCount) + |tag|
  {
    SumBySnoc(tags + [tag], ElementCount);
    assert (tags + [tag])[..|tags|] == tags;
  }

  lemma {:induction false} CountsGrow(tags: seq<Tag>, k: nat)
    requires k <= |tags|
    ensures 0 <= SumBy(tags[..k], ElementCount) <= SumBy(tags, ElementCount)
    decreases |tags| - k, |tags|
  {
    if k < |tags| {
      CountsGrow(tags, k + 1);
      CountAppend(tags[..k], tags[k]);
      assert tags[..k + 1] == tags[..k] + [tags[k]];
      CountNonnegative(tags[..k]);
    } else {
      assert tags[..k] == tags;
      CountNonnegative(tags);
    }
  }

  lemma {:induction false} CountNonnegative(tags: seq<Tag>)
    ensures 0 <= SumBy(tags, ElementCount)
  {
    if tags != [] {
      CountNonnegative(tags[1..]);
    }
  }

  method CountElements(tags: seq<Tag>) returns (count: nat)
    ensures var elements := SumBy(tags, ElementCount);
            0 <= elements && count == if elements > USIZE_MAX then USIZE_MAX else elements
  {
    count := 0;
    for i := 0 to |tags|
      invariant var elements := SumBy(tags[..i], ElementCount);
                0 <= elements && count == if elements > USIZE_MAX then USIZE_MAX else elements
    {
      CountAppend(tags[..i], tags[i]);
      assert tags[..i + 1] == tags[..i] + [tags[i]];
      count := SaturatingAdd(count, |tags[i]|);
    }
    assert tags[..|tags|] == tags;
  }

  lemma {:induction false} SmallTagBound(tag: Tag)
    requires SmallElements(tag)
    ensures 0 <= SumBy(tag, ByteCount) <= 4_096 * |tag|
    ensures 0 <= SumBy(tag, StringCost) <= 24_578 * |tag|
  {
    if tag != [] {
      var init, last := tag[..|tag| - 1], tag[|tag| - 1];
      CanonicalStringBytesExact(last);
      SmallTagBound(init);
      StringTotalsAppend(init, last);
      assert tag == init + [last];
    }
  }

  /** One more small element, counted exactly and far from saturation. */
  lemma NextElement(tag: Tag, i: nat)
    requires i < |tag| <= 4_096 && SmallElements(tag[..i]) && Utf8Len(tag[i]) <= TAG_ELEMENT_MAX_BYTES
    ensures SmallElements(tag[..i + 1])
    ensures SumBy(tag[..i + 1], StringCost) == SumBy(tag[..i], StringCost) + CanonicalStringBytes(tag[i]) <= 110_000_000
    ensures SumBy(tag[..i + 1], ByteCount) == SumBy(tag[..i], ByteCount) + Utf8Len(tag[i]) <= 20_000_000
    ensures SumBy(tag[..i], StringCost) >= 0 && SumBy(tag[..i], ByteCount) >= 0
  {
    assert tag[..i + 1] == tag[..i] + [tag[i]];
    SmallTagBound(tag[..i]);
    StringTotalsAppend(tag[..i], tag[i]);
    CanonicalStringBytesExact(tag[i]);
  }

  /** The loop over one tag, which stops at the first oversized element. */
  method AddElements(startBytes: nat, startJson: nat, tag: Tag) returns (tagBytes: nat, tagsJsonBytes: nat, large: Option<nat>)
    requires startBytes <= 200_000_000 && startJson <= 200_000_000 && |tag| <= 4_096
    ensures large.None? ==>
              && SmallElements(tag) && tagBytes == startBytes + SumBy(tag, ByteCount)
              && tagsJsonBytes == startJson + SumBy(tag, StringCost) + Separators(|tag|)
    ensures large.Some? ==>
              && large.value < |tag| && Utf8Len(tag[large.value]) > TAG_ELEMENT_MAX_BYTES
              && forall i :: 0 <= i < large.value ==> Utf8Len(tag[i]) <= TAG_ELEMENT_MAX_BYTES
  {
    tagBytes, tagsJsonBytes := startBytes, startJson;
    for i := 0 to |tag|
      invariant SmallElements(tag[..i])
      invariant tagsJsonBytes == startJson + SumBy(tag[..i], StringCost) + Separators(i)
      invariant tagBytes == startBytes + SumBy(tag[..i], ByteCount)
    {
      if Utf8Len(tag[i]) > TAG_ELEMENT_MAX_BYTES {
        assert forall k :: 0 <= k < i ==> tag[k] == tag[..i][k];
        return tagBytes, tagsJsonBytes, Some(i);
      }
      NextElement(tag, i);
      if i > 0 {
        tagsJsonBytes := SaturatingAdd(tagsJsonBytes, 1);
      }
      tagsJsonBytes := SaturatingAdd(tagsJsonBytes, CanonicalStringBytes(tag[i]));
      tagBytes := SaturatingAdd(tagBytes, Utf8Len(tag[i]));
    }
    assert tag[..|tag|] == tag;
    large := None;
  }

  /** The counters are bounded by the number of elements, so that no addition saturates. */
  ghost predicate Counted(tags: seq<Tag>, tagBytes: nat, tagsJsonBytes: nat) {
    && tagBytes == SumBy(tags, ElementBytes) && tagsJsonBytes == Utf8Len(TagsJson(tags))
    && tagBytes <= 4_096 * SumBy(tags, ElementCount)
    && tagsJsonBytes <= 2 + 3 * |tags| + 24_579 * SumBy(tags, ElementCount)
  }

  lemma CountedAppend(tags: seq<Tag>, tag: Tag, tagBytes: nat, tagsJsonBytes: nat)
    requires Counted(tags, tagBytes, tagsJsonBytes) && SmallElements(tag)
    ensures SumBy(tag, ByteCount) >= 0 && SumBy(tag, StringCost) >= 0
    ensures Counted(tags + [tag], tagBytes + SumBy(tag, ByteCount),
                    tagsJsonBytes + (if |tags| > 0 then 1 else 0) + 2 + SumBy(tag, StringCost) + Separators(|tag|))
  {
    SmallTagBound(tag);
    TagTotalsAppend(tags, tag);
    CountAppend(tags, tag);
    TagsJsonAppend(tags, tag);
    TagJsonBytes(tag);
  }

  /** One more tag of small elements. */
  lemma NextTag(tags: seq<Tag>, i: nat, tagBytes: nat, tagsJsonBytes: nat)
    requires i < |tags| <= 1_024 && SumBy(tags, ElementCount) <= 4_096 && Counted(tags[..i], tagBytes, tagsJsonBytes)
    ensures |tags[i]| <= 4_096 && tagBytes <= 17_000_000 && tagsJsonBytes <= 101_000_000
    ensures SmallElements(tags[i]) ==>
              && SumBy(tags[i], ByteCount) >= 0 && SumBy(tags[i], StringCost) >= 0
              && Counted(tags[..i + 1], tagBytes + SumBy(tags[i], ByteCount),
                         tagsJsonBytes + (if i > 0 then 1 else 0) + 2 + SumBy(tags[i], StringCost) + Separators(|tags[i]|))
  {
    CountsGrow(tags, i);
    CountsGrow(tags, i + 1);
    CountAppend(tags[..i], tags[i]);
    assert tags[..i + 1] == tags[..i] + [tags[i]];
    if SmallElements(tags[i]) {
      CountedAppend(tags[..i], tags[i], tagBytes, tagsJsonBytes);
    }
  }

  method AddTag(tags: seq<Tag>, i: nat, startBytes: nat, startJson: nat)
    returns (tagBytes: nat, tagsJsonBytes: nat, large: Option<nat>)
    requires i < |tags| <= 1_024 && SumBy(tags, ElementCount) <= 4_096 && Counted(tags[..i], startBytes, startJson)
    ensures large.None? ==> SmallElements(tags[i]) && Counted(tags[..i + 1], tagBytes, tagsJsonBytes)
    ensures large.Some? ==>
              && large.value < |tags[i]| && Utf8Len(tags[i][large.value]) > 4_096
              && forall k :: 0 <= k < large.value ==> Utf8Len(tags[i][k]) <= 4_096
  {
    NextTag(tags, i, startBytes, startJson);
    tagsJsonBytes := startJson;
    if i > 0 {
      tagsJsonBytes := SaturatingAdd(tagsJsonBytes, 1);
    }
    tagsJsonBytes := SaturatingAdd(tagsJsonBytes, 2);
    tagBytes, tagsJsonBytes, large := AddElements(startBytes, tagsJsonBytes, tags[i]);
  }

  method CountTags(tags: seq<Tag>) returns (tagBytes: nat, tagsJsonBytes: nat, large: Option<(nat, nat)>)
    requires |tags| <= 1_024 && SumBy(tags, ElementCount) <= 4_096
    ensures large.None? ==> SmallBefore(tags, |tags|, 0) && Counted(tags, tagBytes, tagsJsonBytes)
    ensures large.Some? ==>
              && large.value.0 < |tags| && large.value.1 < |tags[large.value.0]|
              && Utf8Len(tags[large.value.0][large.value.1]) > 4_096 && SmallBefore(tags, large.value.0, large.value.1)
  {
    tagBytes, tagsJsonBytes := 0, 2;
    TagsJsonBytes([]);
    for i := 0 to |tags|
      invariant SmallBefore(tags, i, 0) && Counted(tags[..i], tagBytes, tagsJsonBytes)
    {
      var element;
      tagBytes, tagsJsonBytes, element := AddTag(tags, i, tagBytes, tagsJsonBytes);
      if element.Some? {
        return tagBytes, tagsJsonBytes, Some((i, element.value));
      }
    }
    assert tags[..|tags|] == tags;
    large := None;
  }

  /** `validate_tag_and_wire_budgets`: what passes is exactly within the budgets, and what is reported is the first
      budget exceeded and by how much. */
  method ValidateBudgets(fixed: nat, tags: seq<Tag>, content: string, createdAtDigits: nat) returns (fault: Option<BudgetFault>)
    requires Utf8Len(content) <= 131_072 && fixed <= 1_000 && createdAtDigits <= 20
    ensures fault.None? <==> WithinBudgets(fixed, tags, content, createdAtDigits)
    ensures fault.Some? ==> Exceeds(fault.value, fixed, tags, content, createdAtDigits)
  {
    if |tags| > TAG_MAX_COUNT {
      return Some(TagCountExceeded(|tags|));
    }
    var elements := CountElements(tags);
    if elements > TAG_TOTAL_ELEMENT_MAX_COUNT {
      return Some(TagElementCountExceeded(elements));
    }
    var tagBytes, tagsJsonBytes, large := CountTags(tags);
    if large.Some? {
      var (tag, element) := large.value;
      assert !SmallElements(tags[tag]);
      return Some(TagElementTooLarge(tag, element, Utf8Len(tags[tag][element])));
    }
    if tagBytes > TAG_TOTAL_MAX_BYTES {
      return Some(TagBytesExceeded(tagBytes));
    }
    CanonicalStringBytesExact(content);
    var actual := SaturatingAdd(SaturatingAdd(SaturatingAdd(fixed, createdAtDigits), tagsJsonBytes),
                                CanonicalStringBytes(content));
    if actual > EVENT_WIRE_MAX_BYTES {
      return Some(EventWireTooLarge(actual));
    }
    return None;
  }
}
