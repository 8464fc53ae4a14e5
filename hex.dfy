/** Go's encoding/hex: EncodeToString writes each byte as two lower-case base-16 digits
    (section 8 of RFC 4648); DecodeString reads digits of either case back into bytes. */
module Hex {
  import opened Wrappers
  import opened GoStrings

  predicate IsLowerHexDigit(c: char) {
    ('0' <= c <= '9') || ('a' <= c <= 'f')
  }

  predicate AllLowerHex(s: string) {
    forall i :: 0 <= i < |s| ==> IsLowerHexDigit(s[i])
  }

  /** The value of one hex digit, of either case; None for any other character. */
  function DigitValue(c: char): (r: Option<int>)
    ensures r.Some? ==> 0 <= r.value < 16
    ensures r.Some? <==> IsLowerHexDigit(c) || ('A' <= c <= 'F')
  {
    if '0' <= c <= '9' then Some(c as int - '0' as int)
    else if 'a' <= c <= 'f' then Some(c as int - 'a' as int + 10)
    else if 'A' <= c <= 'F' then Some(c as int - 'A' as int + 10)
    else None
  }

  /** The lower-case digit of a value below 16, as in the table "0123456789abcdef". */
  function Digit(v: int): (c: char)
    requires 0 <= v < 16
    ensures IsLowerHexDigit(c) && DigitValue(c) == Some(v)
  {
    if v < 10 then ('0' as int + v) as char else ('a' as int + v - 10) as char
  }

  /** hex.EncodeToString. */
  function EncodeToString(bs: Bytes): (r: string)
    ensures |r| == 2 * |bs|
    ensures AllLowerHex(r)
  {
    if bs == [] then ""
    else [Digit(bs[0] / 16), Digit(bs[0] % 16)] + EncodeToString(bs[1..])
  }

  /** hex.DecodeString: None for an odd length or a character that is not a hex digit. */
  function DecodeString(s: string): (r: Option<Bytes>)
    ensures r.Some? ==> 2 * |r.value| == |s|
  {
    if s == [] then Some([])
    else if |s| == 1 then None
    else
      match (DigitValue(s[0]), DigitValue(s[1]), DecodeString(s[2..]))
      case (Some(hi), Some(lo), Some(rest)) => Some([hi * 16 + lo] + rest)
      case _ => None
  }

  lemma SplitByte(b: byte)
    ensures 0 <= b / 16 < 16 && 0 <= b % 16 < 16 && b / 16 * 16 + b % 16 == b
  {
  }

  /** Decoding undoes encoding. */
  lemma {:induction false} DecodeEncode(bs: Bytes)
    ensures DecodeString(EncodeToString(bs)) == Some(bs)
  {
    if bs != [] {
      var b := bs[0];
      var s := EncodeToString(bs);
      SplitByte(b);
      assert s[0] == Digit(b / 16) && s[1] == Digit(b % 16);
      assert s[2..] == EncodeToString(bs[1..]);
      DecodeEncode(bs[1..]);
      assert DecodeString(s) == Some([b] + bs[1..]);
      assert bs == [b] + bs[1..];
    }
  }

  lemma DigitOfValue(c: char)
    requires IsLowerHexDigit(c)
    ensures DigitValue(c).Some? && Digit(DigitValue(c).value) == c
  {
  }

  lemma ByteOfDigits(hi: int, lo: int)
    requires 0 <= hi < 16 && 0 <= lo < 16
    ensures 0 <= hi * 16 + lo < 256 && (hi * 16 + lo) / 16 == hi && (hi * 16 + lo) % 16 == lo
  {
  }

  lemma EncodeCons(b: byte, rest: Bytes)
    ensures EncodeToString([b] + rest) == [Digit(b / 16), Digit(b % 16)] + EncodeToString(rest)
  {
    assert ([b] + rest)[1..] == rest;
  }

  /** On lower-case digits, encoding undoes decoding. */
  lemma {:induction false} EncodeDecode(s: string)
    requires AllLowerHex(s) && DecodeString(s).Some?
    ensures EncodeToString(DecodeString(s).value) == s
  {
    if s != [] {
      var hi, lo := DigitValue(s[0]).value, DigitValue(s[1]).value;
      var rest := DecodeString(s[2..]).value;
      assert AllLowerHex(s[2..]) by {
        forall i | 0 <= i < |s[2..]| ensures IsLowerHexDigit(s[2..][i]) {
          assert s[2..][i] == s[i + 2];
        }
      }
      EncodeDecode(s[2..]);
      ByteOfDigits(hi, lo);
      var b: byte := hi * 16 + lo;
      assert DecodeString(s).value == [b] + rest;
      assert Digit(b / 16) == s[0] by {
        DigitOfValue(s[0]);
      }
      assert Digit(b % 16) == s[1] by {
        DigitOfValue(s[1]);
      }
      EncodeCons(b, rest);
      assert s == [s[0], s[1]] + s[2..];
    }
  }

  /** Distinct byte strings have distinct encodings. */
  lemma EncodeInjective(a: Bytes, b: Bytes)
    ensures EncodeToString(a) == EncodeToString(b) <==> a == b
  {
    DecodeEncode(a);
    DecodeEncode(b);
  }

  /** A string is the encoding of `bs` exactly when it is made of lower-case digits and
      decodes to `bs`. */
  lemma IsEncodingOf(bs: Bytes, s: string)
    ensures s == EncodeToString(bs) <==> AllLowerHex(s) && DecodeString(s) == Some(bs)
  {
    DecodeEncode(bs);
    if AllLowerHex(s) && DecodeString(s) == Some(bs) {
      EncodeDecode(s);
    }
  }

  /** Upper-case digits decode, but no byte string encodes to them. */
  lemma UpperCaseIsNotAnEncoding()
    ensures DecodeString("AB") == Some([0xAB])
    ensures EncodeToString([0xAB]) == "ab" != "AB"
  {
    assert "AB"[2..] == "";
    assert DigitValue('A') == Some(10) && DigitValue('B') == Some(11);
    assert DecodeString("") == Some([]);
    var ab: Bytes := [10 * 16 + 11];
    assert DecodeString("AB") == Some(ab + []);
    assert ab + [] == [0xAB];
  }
}
