/** SHA-256 texts and root hash paths of crates/blossom/src/hash.rs. */
module Hashes {
  import opened Arithmetic
  import opened Bits
  import opened Digits
  import opened Results
  import opened Text

  datatype HashError = InvalidSha256 | InvalidFileExtension | InvalidHashPath

  type Byte = n: nat | n < 256

  const ZEROS: seq<Byte> := seq(32, _ => 0)

  type Sha256 = bytes: seq<Byte> | |bytes| == 32 witness ZEROS

  // ----- hexadecimal text

  function DecodeNibble(c: char): Result<nat, HashError> {
    if IsHexDigit(c) then Ok(HexValue(c)) else Err(InvalidSha256)
  }

  /** The number a pair of hexadecimal digits denotes. */
  function PairValue(high: char, low: char): Byte
    requires IsHexDigit(high) && IsHexDigit(low)
  {
    16 * HexValue(high) + HexValue(low)
  }

  predicate AllNibbles(s: string) {
    forall i :: 0 <= i < |s| ==> IsHexDigit(s[i])
  }

  /** Sixty-four lowercase hexadecimal digits, read two at a time. */
  function FromHex(value: string): Result<Sha256, HashError> {
    if |value| == 64 && AllNibbles(value) then
      Ok(seq(32, i requires 0 <= i < 32 => PairValue(value[2 * i], value[2 * i + 1])))
    else Err(InvalidSha256)
  }

  function ToHex(hash: Sha256): (s: string)
    ensures |s| == 64
  {
    seq(64, i requires 0 <= i < 64 => HexDigit(if i % 2 == 0 then hash[i / 2] / 16 else hash[i / 2] % 16))
  }

  /** Two digits a byte, the high half first. */
  lemma HexText(hash: Sha256, i: nat)
    requires i < 32
    ensures ToHex(hash)[2 * i] == "0123456789abcdef"[hash[i] / 16]
    ensures ToHex(hash)[2 * i + 1] == "0123456789abcdef"[hash[i] % 16]
  {
    DigitTable(hash[i] / 16);
    DigitTable(hash[i] % 16);
  }

  method DecodeHex(value: string) returns (r: Result<Sha256, HashError>)
    ensures r == FromHex(value)
  {
    if |value| != 64 {
      return Err(InvalidSha256);
    }
    var decoded: array<Byte> := new Byte[32](_ => 0);
    for index := 0 to 32
      invariant forall i :: 0 <= i < 2 * index ==> IsHexDigit(value[i])
      invariant forall i :: 0 <= i < index ==> decoded[i] == PairValue(value[2 * i], value[2 * i + 1])
    {
      var high, low := DecodeNibble(value[2 * index]), DecodeNibble(value[2 * index + 1]);
      if high.Err? {
        assert !IsHexDigit(value[2 * index]);
        return Err(high.error);
      }
      if low.Err? {
        assert !IsHexDigit(value[2 * index + 1]);
        return Err(low.error);
      }
      OrNibbles(high.value, low.value);
      decoded[index] := Or(16 * high.value, low.value);
    }
    assert decoded[..] == FromHex(value).value;
    r := Ok(decoded[..]);
  }

  method EncodeHex(hash: Sha256) returns (output: string)
    ensures output == ToHex(hash)
  {
    output := "";
    for index := 0 to 32
      invariant output == ToHex(hash)[..2 * index]
    {
      var byte := hash[index];
      AndLowNibble(byte);
      output := output + [HexDigit(byte / 16)];
      output := output + [HexDigit(And(byte, 15))];
    }
  }

  lemma HexAt(hash: Sha256, k: nat)
    requires k < 32
    ensures ToHex(hash)[2 * k] == HexDigit(hash[k] / 16)
    ensures ToHex(hash)[2 * k + 1] == HexDigit(hash[k] % 16)
  {
  }

  lemma HexOfNibbles(hash: Sha256)
    ensures AllNibbles(ToHex(hash))
  {
  }

  lemma PairOfByte(byte: Byte)
    ensures PairValue(HexDigit(byte / 16), HexDigit(byte % 16)) == byte
  {
  }

  lemma BytesOfPair(high: char, low: char)
    requires IsHexDigit(high) && IsHexDigit(low)
    ensures HexDigit(PairValue(high, low) / 16) == high && HexDigit(PairValue(high, low) % 16) == low
  {
    DivModUnique(PairValue(high, low), HexValue(high), HexValue(low), 16);
    HexDigitOfValue(high);
    HexDigitOfValue(low);
  }

  lemma DecodeAfterEncode(hash: Sha256)
    ensures FromHex(ToHex(hash)) == Ok(hash)
  {
    var text := ToHex(hash);
    HexOfNibbles(hash);
    var decoded := FromHex(text).value;
    forall i | 0 <= i < 32
      ensures decoded[i] == hash[i]
    {
      HexAt(hash, i);
      PairOfByte(hash[i]);
    }
    assert decoded == hash;
  }

  /** Every accepted text is the canonical text of its value. */
  lemma EncodeAfterDecode(value: string)
    requires FromHex(value).Ok?
    ensures ToHex(FromHex(value).value) == value
  {
    var hash := FromHex(value).value;
    forall i | 0 <= i < 64
      ensures ToHex(hash)[i] == value[i]
    {
      var k := i / 2;
      HexAt(hash, k);
      BytesOfPair(value[2 * k], value[2 * k + 1]);
      assert i == 2 * k || i == 2 * k + 1;
    }
  }

  // ----- file extensions

  predicate ExtensionChar(c: char) {
    '0' <= c <= '9' || 'a' <= c <= 'z' || 'A' <= c <= 'Z' || c == '-' || c == '_' || c == '.'
  }

  lemma ExtensionAlphabet(c: char)
    ensures var code := c as int;
            ExtensionChar(c) <==> code in {45, 46, 95} || 48 <= code <= 57 || 65 <= code <= 90 || 97 <= code <= 122
  {
  }

  /** `str::split('.')`: always at least one part. */
  function SplitDots(s: string): (parts: seq<string>)
    ensures |parts| >= 1
    decreases |s|
  {
    var k := IndexOf(s, '.');
    if k == |s| then [s] else [s[..k]] + SplitDots(s[k + 1..])
  }

  predicate ValidExtension(s: string) {
    s != "" && "" !in SplitDots(s) && forall i :: 0 <= i < |s| ==> ExtensionChar(s[i])
  }

  function ParseExtension(value: string): Result<string, HashError> {
    if !ValidExtension(value) then Err(InvalidFileExtension) else Ok(value)
  }

  /** Splitting leaves an empty part exactly at a leading, trailing or doubled dot. */
  lemma {:induction false} EmptyParts(s: string)
    ensures "" in SplitDots(s) <==>
            s == "" || s[0] == '.' || s[|s| - 1] == '.' || exists i :: 0 <= i < |s| - 1 && s[i] == '.' == s[i + 1]
    decreases |s|
  {
    var k := IndexOf(s, '.');
    if k < |s| {
      var rest := s[k + 1..];
      EmptyParts(rest);
      assert "" in SplitDots(s) <==> k == 0 || "" in SplitDots(rest);
      assert forall i :: 0 <= i < |rest| ==> rest[i] == s[k + 1 + i];
    }
  }

  // ----- root hash paths

  datatype HashPath = HashPath(hash: Sha256, extension: Option<string>)

  predicate ValidPath(p: HashPath) {
    p.extension.Some? ==> ValidExtension(p.extension.value)
  }

  predicate Reserved(c: char) {
    c == '/' || c == '\\' || c == '%' || c == '?' || c == '#'
  }

  /** `str::get(..n)`: how many characters fill exactly `n` bytes, if any number does. */
  function BytePrefix(s: string, n: nat): (k: Option<nat>)
    ensures k.Some? ==> k.value <= |s|
    decreases |s|
  {
    if n == 0 then Some(0)
    else if s == "" || CharBytes(s[0]) > n then None
    else
      var rest := BytePrefix(s[1..], n - CharBytes(s[0]));
      if rest.None? then None else Some(rest.value + 1)
  }

  function ParsePath(value: string): Result<HashPath, HashError> {
    if value == "" || value[0] != '/' then Err(InvalidHashPath)
    else
      var segment := value[1..];
      if exists i :: 0 <= i < |segment| && Reserved(segment[i]) then Err(InvalidHashPath)
      else if BytePrefix(segment, 64).None? then Err(InvalidHashPath)
      else
        var k := BytePrefix(segment, 64).value;
        var hash :- FromHex(segment[..k]);
        var suffix := segment[k..];
        if suffix == "" then Ok(HashPath(hash, None))
        else if suffix[0] != '.' then Err(InvalidHashPath)
        else
          var extension :- ParseExtension(suffix[1..]);
          Ok(HashPath(hash, Some(extension)))
  }

  function ToPath(p: HashPath): string {
    "/" + ToHex(p.hash) + if p.extension.Some? then "." + p.extension.value else ""
  }

  lemma {:induction false} AsciiPrefix(s: string, n: nat)
    requires n <= |s| && Ascii(s[..n])
    ensures BytePrefix(s, n) == Some(n)
  {
    if n > 0 {
      assert s[..n][0] == s[0];
      assert s[1..][..n - 1] == s[..n][1..];
      AsciiPrefix(s[1..], n - 1);
    }
  }

  /** A printed path parses back to the same hash and extension. */
  lemma ParseAfterPath(p: HashPath)
    requires ValidPath(p)
    ensures ParsePath(ToPath(p)) == Ok(p)
  {
    var hex := ToHex(p.hash);
    var suffix := if p.extension.Some? then "." + p.extension.value else "";
    var segment := hex + suffix;
    assert ToPath(p)[1..] == segment;
    HexOfNibbles(p.hash);
    assert segment[..64] == hex && segment[64..] == suffix;
    AsciiPrefix(segment, 64);
    DecodeAfterEncode(p.hash);
    forall i | 0 <= i < |segment|
      ensures !Reserved(segment[i])
    {
      assert i < 64 ==> segment[i] == hex[i];
      assert i > 64 ==> segment[i] == p.extension.value[i - 65];
    }
    if p.extension.Some? {
      assert suffix[1..] == p.extension.value;
    }
  }

  /** Every accepted path is the printed path of a valid value. */
  lemma PathAfterParse(value: string)
    requires ParsePath(value).Ok?
    ensures ValidPath(ParsePath(value).value) && ToPath(ParsePath(value).value) == value
  {
    var segment := value[1..];
    var k := BytePrefix(segment, 64).value;
    EncodeAfterDecode(segment[..k]);
    PathPieces(value, k);
  }

  lemma PathPieces(value: string, k: nat)
    requires 1 + k <= |value| && value[0] == '/'
    ensures var suffix := value[1..][k..];
            && value == "/" + value[1..][..k] + suffix
            && (suffix != "" && suffix[0] == '.' ==> suffix == "." + suffix[1..])
  {
  }

  /** Which error a refused path reports: a bad extension only after a good hash and a dot, a bad hash only for 64
      bytes that are not one, and otherwise a bad path. */
  lemma PathErrorTold(value: string)
    ensures ParsePath(value) == Err(InvalidFileExtension) <==>
              && |value| > 65 && value[0] == '/' && (forall i :: 1 <= i < |value| ==> value[i] !in "/\\%?#")
              && FromHex(value[1..65]).Ok? && value[65] == '.' && !ValidExtension(value[66..])
    ensures ParsePath(value) == Err(InvalidSha256) <==>
              && value != "" && value[0] == '/' && (forall i :: 1 <= i < |value| ==> value[i] !in "/\\%?#")
              && BytePrefix(value[1..], 64).Some? && FromHex(value[1..][..BytePrefix(value[1..], 64).value]).Err?
  {
    if value != "" && value[0] == '/' {
      var segment := value[1..];
      assert forall i :: 0 <= i < |segment| ==> segment[i] == value[i + 1];
      if |value| > 65 && FromHex(value[1..65]).Ok? {
        assert segment[..64] == value[1..65];
        assert Ascii(segment[..64]);
        AsciiPrefix(segment, 64);
        assert segment[64..][1..] == value[66..];
      }
      if BytePrefix(segment, 64).Some? && FromHex(segment[..BytePrefix(segment, 64).value]).Ok? {
        assert segment[..64] == value[1..65];
      }
    }
  }
}
