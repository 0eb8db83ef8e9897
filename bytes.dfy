/**
  Bytes as Node's `Buffer` sees them: UTF-8 encoding of strings
  (`Buffer.from(s, "utf8")`) and lower-case hexadecimal
  (`buf.toString("hex")`, `Buffer.from(s, "hex")`).
*/
module Bytes {

  type byte = x: int | 0 <= x < 256

  // ---------------------------------------------------------------- UTF-8

  /** The UTF-8 encoding of one Unicode scalar value. */
  function Utf8Char(c: char): (r: seq<byte>)
    ensures 1 <= |r| <= 4
    ensures |r| == 1 <==> c as int < 0x80
    ensures |r| == 1 ==> r[0] == c as int
  {
    var n := c as int;
    if n < 0x80 then [n]
    else if n < 0x800 then [0xC0 + n / 0x40, 0x80 + n % 0x40]
    else if n < 0x10000 then [0xE0 + n / 0x1000, 0x80 + (n / 0x40) % 0x40, 0x80 + n % 0x40]
    else [0xF0 + n / 0x40000, 0x80 + (n / 0x1000) % 0x40, 0x80 + (n / 0x40) % 0x40, 0x80 + n % 0x40]
  }

  /** `Buffer.from(s, "utf8")`: the UTF-8 encoding of a string. */
  function Utf8(s: string): (r: seq<byte>)
    ensures |r| >= |s|
  {
    if s == [] then [] else Utf8Char(s[0]) + Utf8(s[1..])
  }

  predicate IsAscii(s: string) {
    forall i :: 0 <= i < |s| ==> s[i] as int < 0x80
  }

  /**
    A string encodes to exactly as many bytes as it has characters if and only
    if it is ASCII; an ASCII string encodes to its own character codes.
  */
  lemma {:induction false} Utf8LengthIsAscii(s: string)
    ensures |Utf8(s)| == |s| <==> IsAscii(s)
    ensures IsAscii(s) ==> forall i :: 0 <= i < |s| ==> Utf8(s)[i] == s[i] as int
  {
    if s != [] {
      Utf8LengthIsAscii(s[1..]);
      assert Utf8(s) == Utf8Char(s[0]) + Utf8(s[1..]);
      if IsAscii(s) {
        assert IsAscii(s[1..]) by {
          forall i | 0 <= i < |s[1..]| ensures s[1..][i] as int < 0x80 {
            assert s[1..][i] == s[i + 1];
          }
        }
        forall i | 0 <= i < |s| ensures Utf8(s)[i] == s[i] as int {
          if i > 0 {
            assert Utf8(s)[i] == Utf8(s[1..])[i - 1];
            assert s[1..][i - 1] == s[i];
          }
        }
      }
      if |Utf8(s)| == |s| {
        assert |Utf8Char(s[0])| == 1;
        assert |Utf8(s[1..])| == |s[1..]|;
        forall i | 0 <= i < |s| ensures s[i] as int < 0x80 {
          if i > 0 {
            assert s[1..][i - 1] == s[i];
          }
        }
      }
    }
  }

  lemma {:induction false} Utf8Append(a: string, b: string)
    ensures Utf8(a + b) == Utf8(a) + Utf8(b)
  {
    if a != [] {
      var ab := a + b;
      assert ab != [] && ab[0] == a[0];
      assert ab[1..] == a[1..] + b;
      Utf8Append(a[1..], b);
      assert Utf8(ab) == Utf8Char(a[0]) + Utf8(a[1..] + b);
    } else {
      assert a + b == b;
    }
  }

  // ---------------------------------------------------------------- hexadecimal

  /** A character `Buffer.from(s, "hex")` accepts: either case. */
  predicate IsHexDigit(c: char) {
    '0' <= c <= '9' || 'a' <= c <= 'f' || 'A' <= c <= 'F'
  }

  predicate IsLowerHexDigit(c: char) {
    '0' <= c <= '9' || 'a' <= c <= 'f'
  }

  predicate AllHex(s: string) {
    forall i :: 0 <= i < |s| ==> IsHexDigit(s[i])
  }

  /** The lower-case digit Node writes for a nibble. */
  function HexDigit(k: nat): (c: char)
    requires k < 16
    ensures IsLowerHexDigit(c)
  {
    if k < 10 then ('0' as int + k) as char else ('a' as int + k - 10) as char
  }

  function HexValue(c: char): (k: nat)
    requires IsHexDigit(c)
    ensures k < 16
  {
    if '0' <= c <= '9' then c as int - '0' as int
    else if 'a' <= c <= 'f' then c as int - 'a' as int + 10
    else c as int - 'A' as int + 10
  }

  function HexByte(b: byte): string {
    [HexDigit(b / 16), HexDigit(b % 16)]
  }

  /** `buf.toString("hex")`: two lower-case hex digits per byte. */
  function HexEncode(bs: seq<byte>): (r: string)
    ensures |r| == 2 * |bs|
    ensures forall i :: 0 <= i < |r| ==> IsLowerHexDigit(r[i])
  {
    if bs == [] then [] else HexByte(bs[0]) + HexEncode(bs[1..])
  }

  /**
    `Buffer.from(s, "hex")`: decodes digit pairs from the left and silently
    stops at the first pair that is not two hex digits (and drops an odd
    trailing digit).
  */
  function HexDecode(s: string): (r: seq<byte>)
    ensures |r| <= |s| / 2
  {
    if |s| < 2 || !IsHexDigit(s[0]) || !IsHexDigit(s[1]) then []
    else [HexValue(s[0]) * 16 + HexValue(s[1])] + HexDecode(s[2..])
  }

  lemma HexDigitValue(k: nat)
    requires k < 16
    ensures HexValue(HexDigit(k)) == k
  {
  }

  /** Decoding what Node encoded gives back the same bytes. */
  lemma {:induction false} HexRoundTrip(bs: seq<byte>)
    ensures HexDecode(HexEncode(bs)) == bs
  {
    if bs != [] {
      var b := bs[0];
      HexDigitValue(b / 16);
      HexDigitValue(b % 16);
      var e := HexEncode(bs);
      assert e == HexByte(b) + HexEncode(bs[1..]);
      assert e[2..] == HexEncode(bs[1..]);
      HexRoundTrip(bs[1..]);
      assert HexDecode(e) == [b] + HexDecode(e[2..]);
    }
  }

  /** A string of hex digits only, of even length, decodes to half as many bytes. */
  lemma {:induction false} HexDecodeAllHex(s: string)
    requires AllHex(s) && |s| % 2 == 0
    ensures |HexDecode(s)| == |s| / 2
  {
    if |s| >= 2 {
      assert AllHex(s[2..]) by {
        forall i | 0 <= i < |s[2..]| ensures IsHexDigit(s[2..][i]) {
          assert s[2..][i] == s[i + 2];
        }
      }
      HexDecodeAllHex(s[2..]);
    }
  }
}
