/**
  Base16 ("hex") text as read by Go's `hex.DecodeString` (section 8 of
  RFC 4648, both letter cases accepted) and as written by `hex.EncodeToString`
  (lower case). A Go string is a byte string; a non-ASCII character is never a
  hex digit in either view, so deciding validity on characters gives the same
  verdict.
 */
module Hex {
  import opened Wrappers

  /** Go's `byte`: an integer in [0, 256). */
  newtype byte = x: int | 0 <= x < 256

  /** Go reports `ErrLength` or an `InvalidByteError`; both are one failure here. */
  datatype DecodeError = MalformedHex

  /** The lower-case digit of value `n` (Go's table "0123456789abcdef"). */
  function LowerDigit(n: nat): char
    requires n < 16
  {
    if n < 10 then ('0' as int + n) as char else ('a' as int + n - 10) as char
  }

  predicate IsHexDigit(c: char) {
    '0' <= c <= '9' || 'a' <= c <= 'f' || 'A' <= c <= 'F'
  }

  /** Valid hex text: an even number of characters, every one a hex digit. */
  predicate IsHex(s: string) {
    |s| % 2 == 0 && forall i :: 0 <= i < |s| ==> IsHexDigit(s[i])
  }

  /** The value of one hex digit, either case. */
  function HexVal(c: char): (v: nat)
    requires IsHexDigit(c)
    ensures v < 16
  {
    if '0' <= c <= '9' then c as int - '0' as int
    else if 'a' <= c <= 'f' then c as int - 'a' as int + 10
    else c as int - 'A' as int + 10
  }

  /** ASCII lower-casing of one character. */
  function LowerChar(c: char): char {
    if 'A' <= c <= 'Z' then (c as int - 'A' as int + 'a' as int) as char else c
  }

  function ToLower(s: string): (r: string)
    ensures |r| == |s|
  {
    seq(|s|, i requires 0 <= i < |s| => LowerChar(s[i]))
  }

  /** The byte written by the digit pair `hi lo`. */
  function PairByte(hi: char, lo: char): byte
    requires IsHexDigit(hi) && IsHexDigit(lo)
  {
    (16 * HexVal(hi) + HexVal(lo)) as byte
  }

  /**
    `hex.DecodeString`: pairs of digits, left to right, each pair one byte.
    It fails exactly when the text is not valid hex, and otherwise yields
    one byte per digit pair.
   */
  function Decode(s: string): (r: Result<seq<byte>, DecodeError>)
    ensures r.Success? <==> IsHex(s)
    ensures r.Success? ==> |r.value| == |s| / 2
    decreases |s|
  {
    if |s| == 0 then Success([])
    else if |s| == 1 || !IsHexDigit(s[0]) || !IsHexDigit(s[1]) then Failure(MalformedHex)
    else
      match Decode(s[2..])
      case Failure(e) => Failure(e)
      case Success(rest) => Success([PairByte(s[0], s[1])] + rest)
  }

  /** Byte `i` of decoded hex is the value of the digits at `2*i` and `2*i+1`. */
  lemma {:induction false} DecodeAt(s: string, i: nat)
    requires IsHex(s) && i < |s| / 2
    ensures Decode(s).value[i] as int == 16 * HexVal(s[2 * i]) + HexVal(s[2 * i + 1])
  {
    assert IsHex(s[2..]);
    if i > 0 {
      DecodeAt(s[2..], i - 1);
      assert s[2..][2 * (i - 1)] == s[2 * i] && s[2..][2 * (i - 1) + 1] == s[2 * i + 1];
    }
  }

  /** `hex.EncodeToString`: two lower-case digits per byte, high nibble first. */
  ghost function Encode(b: seq<byte>): (s: string)
    ensures |s| == 2 * |b|
  {
    if b == [] then []
    else [LowerDigit(b[0] as int / 16), LowerDigit(b[0] as int % 16)] + Encode(b[1..])
  }

  /** Decoding the encoding of any byte string gives those bytes back. */
  lemma {:induction false} DecodeEncode(b: seq<byte>)
    ensures Decode(Encode(b)) == Success(b)
  {
    if b != [] {
      DecodeEncode(b[1..]);
      var hi, lo := LowerDigit(b[0] as int / 16), LowerDigit(b[0] as int % 16);
      ByteDigits(b[0]);
      assert Encode(b) == [hi, lo] + Encode(b[1..]);
      DecodePair(hi, lo, Encode(b[1..]));
      assert [b[0]] + b[1..] == b;
    }
  }

  /** The two digits written for a byte are hex digits that read back as it. */
  lemma ByteDigits(x: byte)
    ensures IsHexDigit(LowerDigit(x as int / 16)) && IsHexDigit(LowerDigit(x as int % 16))
    ensures PairByte(LowerDigit(x as int / 16), LowerDigit(x as int % 16)) == x
  {
    DigitValue(x as int / 16);
    DigitValue(x as int % 16);
  }

  /** Decoding text that starts with a digit pair. */
  lemma DecodePair(hi: char, lo: char, t: string)
    requires IsHexDigit(hi) && IsHexDigit(lo)
    ensures Decode([hi, lo] + t) ==
      match Decode(t)
      case Failure(e) => Failure(e)
      case Success(rest) => Success([PairByte(hi, lo)] + rest)
  {
    assert ([hi, lo] + t)[2..] == t;
  }

  /** Every lower-case digit is a hex digit and reads back as its index. */
  lemma DigitValue(n: nat)
    requires n < 16
    ensures IsHexDigit(LowerDigit(n)) && HexVal(LowerDigit(n)) == n
  {
  }

  /** Writing back the value of a hex digit gives the digit lower-cased. */
  lemma DigitLowered(c: char)
    requires IsHexDigit(c)
    ensures LowerDigit(HexVal(c)) == LowerChar(c)
  {
  }

  /** Valid hex text decodes, and re-encoding the bytes gives the text lower-cased. */
  lemma EncodeDecode(s: string)
    requires IsHex(s)
    ensures Decode(s).Success? && Encode(Decode(s).value) == ToLower(s)
  {
    forall k | 0 <= k < |s| ensures Encode(Decode(s).value)[k] == ToLower(s)[k] {
      EncodeDecodeAt(s, k);
    }
  }

  /** One character of `EncodeDecode`. */
  lemma EncodeDecodeAt(s: string, k: nat)
    requires IsHex(s) && k < |s|
    ensures Encode(Decode(s).value)[k] == LowerChar(s[k])
  {
    var b := Decode(s).value;
    var i := k / 2;
    DecodeAt(s, i);
    EncodePair(b, i, s[2 * i], s[2 * i + 1]);
    if k % 2 == 0 {
      assert k == 2 * i;
    } else {
      assert k == 2 * i + 1;
    }
  }

  /** The two characters `Encode` writes for a byte read from the pair `hi lo`. */
  lemma EncodePair(b: seq<byte>, i: nat, hi: char, lo: char)
    requires i < |b| && IsHexDigit(hi) && IsHexDigit(lo) && b[i] == PairByte(hi, lo)
    ensures Encode(b)[2 * i] == LowerChar(hi) && Encode(b)[2 * i + 1] == LowerChar(lo)
  {
    EncodeAt(b, i);
    PairDigits(hi, lo);
  }

  /** Writing back the byte of a digit pair gives the pair lower-cased. */
  lemma PairDigits(hi: char, lo: char)
    requires IsHexDigit(hi) && IsHexDigit(lo)
    ensures LowerDigit(PairByte(hi, lo) as int / 16) == LowerChar(hi)
    ensures LowerDigit(PairByte(hi, lo) as int % 16) == LowerChar(lo)
  {
    DigitLowered(hi);
    DigitLowered(lo);
  }

  /** The two digits that `Encode` writes for byte `i`. */
  lemma {:induction false} EncodeAt(b: seq<byte>, i: nat)
    requires i < |b|
    ensures Encode(b)[2 * i] == LowerDigit(b[i] as int / 16)
    ensures Encode(b)[2 * i + 1] == LowerDigit(b[i] as int % 16)
  {
    if i > 0 {
      EncodeAt(b[1..], i - 1);
    }
  }
}
