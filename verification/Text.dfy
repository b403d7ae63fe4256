/** Byte lengths of Rust strings, which are measured in UTF-8 bytes. */
module Text {
  import opened Digits
  import opened Results

  function CharBytes(c: char): nat {
    var code := c as int;
    if code < 0x80 then 1 else if code < 0x800 then 2 else if code < 0x1_0000 then 3 else 4
  }

  /** `str::len`. */
  function Utf8Len(s: string): nat {
    if s == "" then 0 else CharBytes(s[0]) + Utf8Len(s[1..])
  }

  /** `char::is_control`. */
  predicate Control(c: char) {
    c as int < 0x20 || 0x7F <= c as int < 0xA0
  }

  /** The Unicode White_Space characters, which `str::trim` removes. */
  predicate WhiteSpace(c: char) {
    var code := c as int;
    || 0x09 <= code <= 0x0D || code == 0x20 || code == 0x85 || code == 0xA0 || code == 0x1680
    || 0x2000 <= code <= 0x200A || code == 0x2028 || code == 0x2029 || code == 0x202F || code == 0x205F || code == 0x3000
  }

  lemma WhiteSpaceTable(c: char)
    ensures WhiteSpace(c) <==>
              c as int in {9, 10, 11, 12, 13, 32, 133, 160, 5760, 8192, 8193, 8194, 8195, 8196, 8197, 8198, 8199, 8200,
                           8201, 8202, 8232, 8233, 8239, 8287, 12288}
  {
  }

  /** `str::trim` leaves nothing. */
  predicate Blank(s: string) {
    forall i :: 0 <= i < |s| ==> WhiteSpace(s[i])
  }

  /** `str::trim` changes nothing. */
  predicate Trimmed(s: string) {
    s != "" ==> !WhiteSpace(s[0]) && !WhiteSpace(s[|s| - 1])
  }

  predicate Ascii(s: string) {
    forall i :: 0 <= i < |s| ==> s[i] as int < 0x80
  }

  lemma {:induction false} AsciiLength(s: string)
    requires Ascii(s)
    ensures Utf8Len(s) == |s|
  {
    if s != "" {
      AsciiLength(s[1..]);
    }
  }

  lemma {:induction false} Utf8LenConcat(a: string, b: string)
    ensures Utf8Len(a + b) == Utf8Len(a) + Utf8Len(b)
  {
    if a == "" {
      assert a + b == b;
    } else {
      Utf8LenConcat(a[1..], b);
      assert (a + b)[1..] == a[1..] + b;
    }
  }

  /** A character takes at most four bytes. */
  lemma {:induction false} FourBytesEach(s: string)
    ensures |s| <= Utf8Len(s) <= 4 * |s|
  {
    if s != "" {
      FourBytesEach(s[1..]);
    }
  }

  lemma NatTextBytes(n: nat)
    ensures Utf8Len(NatText(n)) == |NatText(n)|
  {
    AsciiLength(NatText(n));
  }

  /** Digits parsed as an unsigned 64-bit integer: not empty, leading zeros allowed. */
  function ParseU64(value: string): Option<U64> {
    if value == "" || !AllDigits(value) || DigitsValue(value) > U64_MAX then None else Some(DigitsValue(value))
  }

  /** Such a number is read exactly from its canonical text behind any zeros. */
  lemma ParseU64Exact(value: string, n: nat)
    ensures ParseU64(value) == Some(n) <==> n <= 18_446_744_073_709_551_615 && ZeroPadded(value, n)
  {
    ZeroPaddedExact(value, n);
  }

  lemma ParsePrintedU64(n: U64)
    ensures ParseU64(NatText(n)) == Some(n)
  {
    NatTextIsCanonical(n);
  }

  /** `str::find(c)`: the first position of a character. */
  function IndexOf(s: string, c: char): (k: nat)
    ensures k <= |s|
    ensures k < |s| ==> s[k] == c
    ensures forall i :: 0 <= i < k ==> s[i] != c
  {
    if s == "" || s[0] == c then 0 else 1 + IndexOf(s[1..], c)
  }
}
