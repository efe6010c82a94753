/** The two wire formats the converters are instantiated with, and the digit alphabet. */
module Utf7Scheme {

  /** A byte of encoded text. Only 7-bit values: widening a larger `char` is platform dependent. */
  type Byte = b: int | 0 <= b < 0x80

  /** One UTF-16 code unit. */
  type Unit = u: int | 0 <= u < 0x1_0000

  /** The value of one base64 digit. */
  type Sextet = d: int | 0 <= d < 64

  const DASH: Byte := '-' as int

  /** The two modes of a converter. */
  const ENC_DIRECT := 0
  const ENC_BASE64 := 1

  /** What CharToValue answers for a byte that is not a digit. */
  const NOT_A_DIGIT := 0xffff

  datatype Status = Ok | MoreOutput | IllegalInput

  datatype Scheme = UTF7 | ModifiedUTF7 {

    function Escape(): Byte {
      if UTF7? then '+' as int else '&' as int
    }

    function LastDigit(): Byte {
      if UTF7? then '/' as int else ',' as int
    }

    /** The units that are written as themselves. */
    predicate DirectEncodable(u: Unit): (direct: bool)
      ensures direct ==> u < 0x80
    {
      match this
      case ModifiedUTF7 =>
        0x20 <= u <= 0x7e
      case UTF7 =>
        || 'A' as int <= u <= 'Z' as int
        || 'a' as int <= u <= 'z' as int
        || '0' as int <= u <= '9' as int
        || 39 <= u <= 41 || 44 <= u <= 47
        || u == 58 || u == 63 || u == 32 || u == 9 || u == 13 || u == 10
        || u == 60 || u == 33 || u == 34 || u == 62 || u == 61 || u == 59
        || u == 91 || u == 93
    }

    /** -1 for a value that is not a digit. */
    function ValueToChar(value: nat): int {
      if value < 26 then 'A' as int + value
      else if value < 52 then 'a' as int + value - 26
      else if value < 62 then '0' as int + value - 52
      else if value == 62 then '+' as int
      else if value == 63 then LastDigit()
      else -1
    }

    function CharToValue(c: Byte): nat {
      if 'A' as int <= c <= 'Z' as int then c - 'A' as int
      else if 'a' as int <= c <= 'z' as int then 26 + c - 'a' as int
      else if '0' as int <= c <= '9' as int then 52 + c - '0' as int
      else if c == '+' as int then 62
      else if c == LastDigit() then 63
      else NOT_A_DIGIT
    }

    predicate IsDigit(c: Byte) {
      CharToValue(c) <= 0xff
    }

    /** The printed form of a digit. */
    function Digit(d: Sextet): (c: Byte)
      ensures c == ValueToChar(d)
      ensures IsDigit(c) && CharToValue(c) == d && c != DASH
    {
      ValueToChar(d)
    }

    /** The value of a digit byte. */
    function Value(c: Byte): (d: Sextet)
      requires IsDigit(c)
      ensures Digit(d) == c
    {
      CharToValue(c)
    }

    /** The alphabet is a bijection between the digit bytes and 0..63. */
    lemma DigitAlphabet(c: Byte)
      ensures IsDigit(c) <==> exists d: Sextet :: ValueToChar(d) == c
      ensures IsDigit(c) ==> CharToValue(c) < 64 && ValueToChar(CharToValue(c)) == c
      ensures !IsDigit(DASH)
    {
      if IsDigit(c) {
        var d: Sextet := CharToValue(c);
        assert ValueToChar(d) == c;
      } else {
        forall d: Sextet ensures ValueToChar(d) != c {
          assert CharToValue(Digit(d)) == d;
        }
      }
    }

    /** Base64 digits printed one after the other. */
    function Chars(ds: seq<Sextet>): (t: seq<Byte>)
      ensures |t| == |ds|
      ensures forall i :: 0 <= i < |ds| ==> t[i] == Digit(ds[i])
    {
      seq(|ds|, i requires 0 <= i < |ds| => Digit(ds[i]))
    }

    /** The digits printed in `t`. */
    function Values(t: seq<Byte>): (ds: seq<Sextet>)
      requires forall c :: c in t ==> IsDigit(c)
      ensures |ds| == |t|
      ensures forall i :: 0 <= i < |t| ==> ds[i] == Value(t[i])
    {
      seq(|t|, i requires 0 <= i < |t| => Value(t[i]))
    }
  }
}
