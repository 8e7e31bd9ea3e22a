/** The hex codec behind `hextobin` and the binary lookups:
    `binascii.unhexlify` (either letter case, even length) and
    `bytes.hex()` (lower case). */
module Hex {
  import opened Wrappers

  newtype byte = x: int | 0 <= x < 256

  /** The lower-case hex digit of a nibble. */
  function Digit(n: int): (c: char)
    requires 0 <= n < 16
  {
    if n < 10 then (48 + n) as char else (87 + n) as char
  }

  /** The nibble a hex digit stands for, in either case; `None` for any
      other character. */
  function Nibble(c: char): (r: Option<int>)
    ensures r.Some? ==> 0 <= r.value < 16
  {
    if '0' <= c <= '9' then Some(c as int - 48)
    else if 'a' <= c <= 'f' then Some(c as int - 87)
    else if 'A' <= c <= 'F' then Some(c as int - 55)
    else None
  }

  predicate LowerHexChar(c: char)
  {
    '0' <= c <= '9' || 'a' <= c <= 'f'
  }

  /** A string `bytes.hex()` could have produced. */
  predicate LowerHex(s: string)
  {
    forall i :: 0 <= i < |s| ==> LowerHexChar(s[i])
  }

  lemma DigitNibble(n: int)
    requires 0 <= n < 16
    ensures LowerHexChar(Digit(n)) && Nibble(Digit(n)) == Some(n)
  {
  }

  lemma NibbleDigit(c: char)
    requires LowerHexChar(c)
    ensures Nibble(c).Some? && Digit(Nibble(c).value) == c
  {
  }

  /** `bytes.hex()`: two lower-case digits per byte, high nibble first. */
  function Encode(b: seq<byte>): (s: string)
    ensures |s| == 2 * |b|
    ensures LowerHex(s)
  {
    if |b| == 0 then ""
    else
      var hi := b[0] as int / 16;
      var lo := b[0] as int % 16;
      DigitNibble(hi);
      DigitNibble(lo);
      [Digit(hi), Digit(lo)] + Encode(b[1..])
  }

  /** The digit pairs of an even-length string, each decoded to a byte. */
  function DecodePairs(s: string): (r: Option<seq<byte>>)
    requires |s| % 2 == 0
    ensures r.Some? ==> 2 * |r.value| == |s|
  {
    if |s| == 0 then Some([])
    else
      match (Nibble(s[0]), Nibble(s[1]), DecodePairs(s[2..]))
      case (Some(hi), Some(lo), Some(rest)) => Some([(hi * 16 + lo) as byte] + rest)
      case _ => None
  }

  /** `binascii.unhexlify`: odd-length input and non-hex characters are
      errors (`None`). */
  function Decode(s: string): (r: Option<seq<byte>>)
    ensures r.Some? ==> 2 * |r.value| == |s|
  {
    if |s| % 2 != 0 then None else DecodePairs(s)
  }

  /** Decoding what `bytes.hex()` wrote gives the bytes back. */
  lemma {:induction false} DecodeEncode(b: seq<byte>)
    ensures Decode(Encode(b)) == Some(b)
  {
    if |b| > 0 {
      var s := Encode(b);
      var hi := b[0] as int / 16;
      var lo := b[0] as int % 16;
      DigitNibble(hi);
      DigitNibble(lo);
      DecodeEncode(b[1..]);
      assert s[2..] == Encode(b[1..]);
      assert (hi * 16 + lo) as byte == b[0];
      assert b == [b[0]] + b[1..];
    }
  }

  /** Re-encoding the bytes of a lower-case hex string of even length gives
      the string back; upper-case input decodes too but re-encodes in lower
      case. */
  lemma {:induction false} EncodeDecode(s: string)
    requires LowerHex(s)
    requires |s| % 2 == 0
    ensures Decode(s).Some?
    ensures Encode(Decode(s).value) == s
    decreases |s|
  {
    if |s| > 0 {
      NibbleDigit(s[0]);
      NibbleDigit(s[1]);
      var hi := Nibble(s[0]).value;
      var lo := Nibble(s[1]).value;
      assert LowerHex(s[2..]) by {
        forall i | 0 <= i < |s[2..]| ensures LowerHexChar(s[2..][i]) {
          assert s[2..][i] == s[i + 2];
        }
      }
      EncodeDecode(s[2..]);
      var b := (hi * 16 + lo) as byte;
      assert b as int / 16 == hi && b as int % 16 == lo;
      var rest := Decode(s[2..]).value;
      assert Decode(s).value == [b] + rest;
      assert ([b] + rest)[1..] == rest;
      assert s == [s[0], s[1]] + s[2..];
    }
  }

  /** `hextobin`: every line value decoded and the bytes written one after
      another, with no separator; a line that fails to decode is an error. */
  function HexToBin(file: seq<string>): (r: Option<seq<byte>>)
    ensures r.Some? <==> forall k :: 0 <= k < |file| ==> Decode(file[k]).Some?
  {
    if |file| == 0 then Some([])
    else
      assert forall k :: 1 <= k < |file| ==> file[1..][k - 1] == file[k];
      match (Decode(file[0]), HexToBin(file[1..]))
      case (Some(b), Some(rest)) => Some(b + rest)
      case _ => None
  }

  /** Every line is lower-case hex of the same even width. */
  predicate HexLines(file: seq<string>, width: nat)
  {
    && width % 2 == 0
    && forall k :: 0 <= k < |file| ==> |file[k]| == width && LowerHex(file[k])
  }

  /** Dropping the first line keeps the lines hex of the same width. */
  lemma HexLinesTail(file: seq<string>, width: nat)
    requires HexLines(file, width)
    requires |file| > 0
    ensures HexLines(file[1..], width)
  {
    forall k | 0 <= k < |file[1..]| ensures |file[1..][k]| == width && LowerHex(file[1..][k]) {
      assert file[1..][k] == file[k + 1];
    }
  }

  lemma MulStep(n: nat, w: nat)
    requires n >= 1
    ensures n * w == w + (n - 1) * w
  {
  }

  /** The binary file of a table of hex lines is defined, and is the
      concatenation of one `width / 2`-byte record per line, each of which
      re-encodes to its line. */
  lemma {:induction false} HexToBinRecords(file: seq<string>, width: nat)
    requires HexLines(file, width)
    ensures HexToBin(file).Some?
    ensures |HexToBin(file).value| == |file| * (width / 2)
    ensures |file| > 0 ==> HexToBin(file).value[..width / 2] == Decode(file[0]).value
    ensures |file| > 0 ==> HexToBin(file).value[width / 2..] == HexToBin(file[1..]).value
    ensures |file| > 0 ==> Encode(Decode(file[0]).value) == file[0]
  {
    if |file| > 0 {
      HexLinesTail(file, width);
      HexToBinRecords(file[1..], width);
      EncodeDecode(file[0]);
      var w := width / 2;
      var b := Decode(file[0]).value;
      var rest := HexToBin(file[1..]).value;
      assert HexToBin(file).value == b + rest;
      assert |b| == w;
      MulStep(|file|, w);
    }
  }
}
