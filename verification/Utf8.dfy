/** UTF-8, as section 3 of RFC 3629 defines it: what `str::len` counts and how Rust orders strings. */
module Utf8 {
  import opened Lexicographic
  import opened Text

  type Byte = b: int | 0 <= b < 256

  function EncodeChar(c: char): (bytes: seq<Byte>)
    ensures |bytes| >= 1
  {
    var code := c as int;
    if code < 0x80 then [code]
    else if code < 0x800 then [0xC0 + code / 64, 0x80 + code % 64]
    else if code < 0x1_0000 then [0xE0 + code / 4_096, 0x80 + code / 64 % 64, 0x80 + code % 64]
    else [0xF0 + code / 262_144, 0x80 + code / 4_096 % 64, 0x80 + code / 64 % 64, 0x80 + code % 64]
  }

  function Encode(s: string): seq<Byte> {
    if s == "" then [] else EncodeChar(s[0]) + Encode(s[1..])
  }

  /** The byte length of a text is what its encoding takes. */
  lemma {:induction false} EncodedLength(s: string)
    ensures |Encode(s)| == Utf8Len(s)
  {
    if s != "" {
      EncodedLength(s[1..]);
    }
  }

  /** The order of byte strings: the first difference decides, and a prefix comes first. */
  predicate BytesLess(a: seq<Byte>, b: seq<Byte>) {
    b != [] && (a == [] || a[0] < b[0] || (a[0] == b[0] && BytesLess(a[1..], b[1..])))
  }

  lemma {:induction false} SamePrefix(p: seq<Byte>, a: seq<Byte>, b: seq<Byte>)
    ensures BytesLess(p + a, p + b) <==> BytesLess(a, b)
  {
    if p == [] {
      assert p + a == a && p + b == b;
    } else {
      SamePrefix(p[1..], a, b);
      assert (p + a)[1..] == p[1..] + a && (p + b)[1..] == p[1..] + b;
    }
  }

  /** Bytes that differ first at `k`. */
  lemma {:induction false} DifferAt(a: seq<Byte>, b: seq<Byte>, k: nat)
    requires k < |a| && k < |b| && a[..k] == b[..k] && a[k] < b[k]
    ensures BytesLess(a, b)
  {
    if k > 0 {
      assert a[0] == a[..k][0] == b[..k][0] == b[0];
      assert a[1..][..k - 1] == a[..k][1..] && b[1..][..k - 1] == b[..k][1..];
      DifferAt(a[1..], b[1..], k - 1);
    }
  }

  lemma LastDigit(m: nat, n: nat)
    requires m < n
    ensures m / 64 < n / 64 || (m / 64 == n / 64 && m % 64 < n % 64)
  {
  }

  lemma HigherDigits(m: nat)
    ensures m / 4_096 == m / 64 / 64 && m / 262_144 == m / 64 / 64 / 64
  {
  }

  /** Lead bytes of longer encodings are greater. */
  lemma LeadByte(c: char, d: char)
    requires c < d && |EncodeChar(c)| < |EncodeChar(d)|
    ensures EncodeChar(c)[0] < EncodeChar(d)[0]
  {
  }

  lemma LengthOrder(c: char, d: char)
    requires c < d
    ensures |EncodeChar(c)| <= |EncodeChar(d)|
  {
  }

  /** Encodings of one length differ first in a smaller byte. */
  predicate DiffersBelow(x: seq<Byte>, y: seq<Byte>)
    requires 1 <= |x| == |y| <= 4
  {
    || x[0] < y[0]
    || (x[0] == y[0] && |x| > 1
        && (x[1] < y[1] || (x[1] == y[1] && |x| > 2 && (x[2] < y[2] || (x[2] == y[2] && |x| > 3 && x[3] < y[3])))))
  }

  /** The base 64 digits of a smaller code point decide its bytes. */
  lemma DigitsDecide(c: char, d: char)
    requires c < d && |EncodeChar(c)| == |EncodeChar(d)|
    ensures DiffersBelow(EncodeChar(c), EncodeChar(d))
  {
    var m, n := c as int, d as int;
    LastDigit(m, n);
    if m / 64 < n / 64 {
      LastDigit(m / 64, n / 64);
      if m / 64 / 64 < n / 64 / 64 {
        LastDigit(m / 64 / 64, n / 64 / 64);
      }
    }
    HigherDigits(m);
    HigherDigits(n);
  }

  lemma SameLength(x: seq<Byte>, y: seq<Byte>) returns (k: nat)
    requires 1 <= |x| == |y| <= 4 && DiffersBelow(x, y)
    ensures k < |x| && x[..k] == y[..k] && x[k] < y[k]
  {
    if x[0] < y[0] {
      k := 0;
    } else if x[1] < y[1] {
      k := 1;
    } else if x[2] < y[2] {
      k := 2;
    } else {
      k := 3;
    }
  }

  /** A smaller code point has an encoding that differs first in a smaller byte. */
  lemma {:induction false} FirstDifference(c: char, d: char) returns (k: nat)
    requires c < d
    ensures var x, y := EncodeChar(c), EncodeChar(d);
            k < |x| && k < |y| && x[..k] == y[..k] && x[k] < y[k]
  {
    LengthOrder(c, d);
    if |EncodeChar(c)| < |EncodeChar(d)| {
      LeadByte(c, d);
      k := 0;
    } else {
      DigitsDecide(c, d);
      k := SameLength(EncodeChar(c), EncodeChar(d));
    }
  }

  lemma {:induction false} CharOrder(c: char, d: char, a: seq<Byte>, b: seq<Byte>)
    requires c < d
    ensures BytesLess(EncodeChar(c) + a, EncodeChar(d) + b)
  {
    var k := FirstDifference(c, d);
    var x, y := EncodeChar(c), EncodeChar(d);
    assert (x + a)[..k] == x[..k] && (y + b)[..k] == y[..k];
    DifferAt(x + a, y + b, k);
  }

  lemma {:induction false} BytesAsymmetric(a: seq<Byte>, b: seq<Byte>)
    requires BytesLess(a, b)
    ensures !BytesLess(b, a)
  {
    if a != [] && a[0] == b[0] {
      BytesAsymmetric(a[1..], b[1..]);
    }
  }

  /** Comparing code points compares the bytes, so the model orders texts as the source does. */
  lemma {:induction false} OrderIsByteOrder(a: string, b: string)
    ensures LexLess(a, b) <==> BytesLess(Encode(a), Encode(b))
    decreases |a|
  {
    if a != "" && b != "" {
      if a[0] == b[0] {
        OrderIsByteOrder(a[1..], b[1..]);
        SamePrefix(EncodeChar(a[0]), Encode(a[1..]), Encode(b[1..]));
      } else if a[0] < b[0] {
        CharOrder(a[0], b[0], Encode(a[1..]), Encode(b[1..]));
      } else {
        CharOrder(b[0], a[0], Encode(b[1..]), Encode(a[1..]));
        BytesAsymmetric(Encode(b), Encode(a));
      }
    }
  }

  /** Different texts have different encodings. */
  lemma EncodingDetermines(a: string, b: string)
    requires Encode(a) == Encode(b)
    ensures a == b
  {
    LexTotal(a, b);
    OrderIsByteOrder(a, b);
    OrderIsByteOrder(b, a);
    if BytesLess(Encode(a), Encode(a)) {
      BytesAsymmetric(Encode(a), Encode(a));
    }
  }
}
