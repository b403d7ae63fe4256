/** Selecting event tags by their first element, and tag lists written in keyed parts. */
module Tags {
  import opened Json
  import opened Sequences

  predicate HasKey(tag: Tag, key: string) {
    tag != [] && tag[0] == key
  }

  /** The tags whose first element is `key`, in order. */
  function Matching(tags: seq<Tag>, key: string): seq<Tag> {
    if tags == [] then []
    else if HasKey(tags[0], key) then [tags[0]] + Matching(tags[1..], key)
    else Matching(tags[1..], key)
  }

  lemma {:induction false} MatchingConcat(a: seq<Tag>, b: seq<Tag>, key: string)
    ensures Matching(a + b, key) == Matching(a, key) + Matching(b, key)
  {
    if a == [] {
      assert a + b == b;
    } else {
      MatchingConcat(a[1..], b, key);
      assert (a + b)[0] == a[0] && (a + b)[1..] == a[1..] + b;
      if HasKey(a[0], key) {
        assert [a[0]] + (Matching(a[1..], key) + Matching(b, key)) == [a[0]] + Matching(a[1..], key) + Matching(b, key);
      }
    }
  }

  lemma {:induction false} MatchingNone(tags: seq<Tag>, key: string)
    requires forall i :: 0 <= i < |tags| ==> !HasKey(tags[i], key)
    ensures Matching(tags, key) == []
  {
    if tags != [] {
      MatchingNone(tags[1..], key);
    }
  }

  lemma {:induction false} MatchingAll(tags: seq<Tag>, key: string)
    requires forall i :: 0 <= i < |tags| ==> HasKey(tags[i], key)
    ensures Matching(tags, key) == tags
  {
    if tags != [] {
      MatchingAll(tags[1..], key);
      assert tags == [tags[0]] + tags[1..];
    }
  }

  lemma {:induction false} MatchingKeys(tags: seq<Tag>, key: string)
    ensures forall i :: 0 <= i < |Matching(tags, key)| ==> HasKey(Matching(tags, key)[i], key)
  {
    if tags != [] {
      MatchingKeys(tags[1..], key);
    }
  }

  predicate AllKeyed(tags: seq<Tag>, key: string) {
    forall i :: 0 <= i < |tags| ==> HasKey(tags[i], key)
  }

  // ----- tag lists written in parts

  datatype Part = Part(key: string, tags: seq<Tag>)

  function Flatten(parts: seq<Part>): seq<Tag> {
    if parts == [] then [] else Flatten(parts[..|parts| - 1]) + parts[|parts| - 1].tags
  }

  /** The parts stand in the order of these keys. */
  predicate InOrder(parts: seq<Part>, keys: seq<string>) {
    |parts| == |keys| && forall i :: 0 <= i < |parts| ==> parts[i].key == keys[i]
  }

  lemma InOrderConcat(a: seq<Part>, x: seq<string>, b: seq<Part>, y: seq<string>)
    requires InOrder(a, x) && InOrder(b, y)
    ensures InOrder(a + b, x + y)
  {
  }

  /** Each part holds tags of its own key only. */
  predicate PartsKeyed(parts: seq<Part>) {
    forall i :: 0 <= i < |parts| ==> AllKeyed(parts[i].tags, parts[i].key)
  }

  predicate KeysDistinct(parts: seq<Part>) {
    forall i, j :: 0 <= i < j < |parts| ==> parts[i].key != parts[j].key
  }

  /** Selecting by the key of each part finds exactly that part. */
  predicate Carries(tags: seq<Tag>, parts: seq<Part>) {
    forall i :: 0 <= i < |parts| ==> Matching(tags, parts[i].key) == parts[i].tags
  }

  lemma FlattenFour(a: Part, b: Part, c: Part, d: Part)
    ensures Flatten([a, b, c, d]) == a.tags + b.tags + c.tags + d.tags
  {
    assert Flatten([a]) == a.tags by { assert [a][..0] == []; }
    assert Flatten([a, b]) == a.tags + b.tags by { assert [a, b][..1] == [a]; }
    assert Flatten([a, b, c]) == Flatten([a, b]) + c.tags by { assert [a, b, c][..2] == [a, b]; }
    assert [a, b, c, d][..3] == [a, b, c];
  }

  lemma {:induction false} FlattenConcat(a: seq<Part>, b: seq<Part>)
    ensures Flatten(a + b) == Flatten(a) + Flatten(b)
  {
    if b == [] {
      assert a + b == a;
    } else {
      var init, last := b[..|b| - 1], b[|b| - 1];
      FlattenConcat(a, init);
      assert (a + b)[..|a + b| - 1] == a + init && (a + b)[|a + b| - 1] == last;
    }
  }

  lemma {:induction false} AbsentFromParts(parts: seq<Part>, key: string)
    requires PartsKeyed(parts) && forall i :: 0 <= i < |parts| ==> parts[i].key != key
    ensures Matching(Flatten(parts), key) == []
  {
    if parts != [] {
      var init, last := parts[..|parts| - 1], parts[|parts| - 1];
      AbsentFromParts(init, key);
      MatchingNone(last.tags, key);
      MatchingConcat(Flatten(init), last.tags, key);
    }
  }

  lemma {:induction false} FoundInParts(parts: seq<Part>, k: nat)
    requires PartsKeyed(parts) && KeysDistinct(parts) && k < |parts|
    ensures Matching(Flatten(parts), parts[k].key) == parts[k].tags
  {
    var init, last := parts[..|parts| - 1], parts[|parts| - 1];
    MatchingConcat(Flatten(init), last.tags, parts[k].key);
    if k == |init| {
      AbsentFromParts(init, last.key);
      MatchingAll(last.tags, last.key);
    } else {
      FoundInParts(init, k);
      MatchingNone(last.tags, parts[k].key);
    }
  }

  /** A list written in parts carries them. */
  lemma FlattenCarries(parts: seq<Part>)
    requires PartsKeyed(parts) && KeysDistinct(parts)
    ensures Carries(Flatten(parts), parts)
  {
    forall k | 0 <= k < |parts|
      ensures Matching(Flatten(parts), parts[k].key) == parts[k].tags
    {
      FoundInParts(parts, k);
    }
  }

  // ----- what a list holds beside its parts

  function Others(tags: seq<Tag>, key: string): seq<Tag> {
    if tags == [] then []
    else if HasKey(tags[0], key) then Others(tags[1..], key)
    else [tags[0]] + Others(tags[1..], key)
  }

  lemma {:induction false} OthersMatch(tags: seq<Tag>, key: string, other: string)
    requires key != other
    ensures Matching(Others(tags, other), key) == Matching(tags, key)
  {
    if tags != [] {
      OthersMatch(tags[1..], key, other);
      if !HasKey(tags[0], other) {
        assert ([tags[0]] + Others(tags[1..], other))[1..] == Others(tags[1..], other);
      }
    }
  }

  lemma {:induction false} SplitByKey(tags: seq<Tag>, key: string, weight: Tag -> int)
    ensures SumBy(tags, weight) == SumBy(Matching(tags, key), weight) + SumBy(Others(tags, key), weight)
    ensures forall tag :: tag in Matching(tags, key) || tag in Others(tags, key) ==> tag in tags
  {
    if tags != [] {
      SplitByKey(tags[1..], key, weight);
      assert tags == [tags[0]] + tags[1..];
      assert ([tags[0]] + Matching(tags[1..], key))[1..] == Matching(tags[1..], key);
      assert ([tags[0]] + Others(tags[1..], key))[1..] == Others(tags[1..], key);
    }
  }

  lemma {:induction false} SumNonnegative(tags: seq<Tag>, weight: Tag -> int)
    requires forall tag :: weight(tag) >= 0
    ensures SumBy(tags, weight) >= 0
  {
    if tags != [] {
      SumNonnegative(tags[1..], weight);
    }
  }

  /** The parts a list carries are among its tags and weigh no more than it does. */
  lemma {:induction false} CarriedWithin(tags: seq<Tag>, parts: seq<Part>, weight: Tag -> int)
    requires Carries(tags, parts) && KeysDistinct(parts) && forall tag :: weight(tag) >= 0
    ensures SumBy(Flatten(parts), weight) <= SumBy(tags, weight)
    ensures forall tag :: tag in Flatten(parts) ==> tag in tags
    decreases |parts|
  {
    if parts == [] {
      SumNonnegative(tags, weight);
    } else {
      var init, last := parts[..|parts| - 1], parts[|parts| - 1];
      var rest := Others(tags, last.key);
      forall i | 0 <= i < |init|
        ensures Matching(rest, init[i].key) == init[i].tags
      {
        OthersMatch(tags, init[i].key, last.key);
      }
      CarriedWithin(rest, init, weight);
      SplitByKey(tags, last.key, weight);
      SumByConcat(Flatten(init), last.tags, weight);
    }
  }
}
