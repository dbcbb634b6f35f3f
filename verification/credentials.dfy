/** The two attendance credentials `startSession` issues: a numeric OTP and a
    QR token. Randomness enters as parameters: the OTP draw is the random
    whole number below 9000 the source derives from a uniform random real,
    and the QR token is built from 16 bytes drawn from the cryptographic
    random source. */
module Credentials {
  import opened Clock

  type Byte = b: nat | b < 256

  /** The session OTP: 1000 plus a random draw below 9000, rendered in
      decimal. The draw is the integer part of the scaled random number. */
  function Otp(draw: nat): (otp: string)
    requires draw < 9000
    ensures |otp| == 4
    ensures AllDigits(otp) && otp[0] != '0'
    ensures ParseDecimal(otp) == 1000 + draw
    ensures 1000 <= ParseDecimal(otp) <= 9999
  {
    DecimalStringLength(1000 + draw, 3);
    DecimalString(1000 + draw)
  }

  predicate IsLowerHexDigit(c: char) {
    ('0' <= c <= '9') || ('a' <= c <= 'f')
  }

  predicate IsLowerHex(s: string) {
    forall i :: 0 <= i < |s| ==> IsLowerHexDigit(s[i])
  }

  function HexDigit(d: nat): (c: char)
    requires d < 16
    ensures IsLowerHexDigit(c)
  {
    if d < 10 then (('0' as int) + d) as char else (('a' as int) + d - 10) as char
  }

  function HexValue(c: char): (d: nat)
    requires IsLowerHexDigit(c)
    ensures d < 16
  {
    if c <= '9' then (c as int) - ('0' as int) else (c as int) - ('a' as int) + 10
  }

  /** `Buffer.toString('hex')`: two lowercase hex digits per byte, high nibble
      first. */
  function HexEncode(bytes: seq<Byte>): (s: string)
    ensures |s| == 2 * |bytes|
    ensures IsLowerHex(s)
  {
    if |bytes| == 0 then []
    else [HexDigit(bytes[0] / 16), HexDigit(bytes[0] % 16)] + HexEncode(bytes[1..])
  }

  /** Reading the hex text back into bytes. */
  function HexDecode(s: string): (bytes: seq<Byte>)
    requires |s| % 2 == 0 && IsLowerHex(s)
    ensures 2 * |bytes| == |s|
  {
    if |s| == 0 then []
    else [16 * HexValue(s[0]) + HexValue(s[1])] + HexDecode(s[2..])
  }

  /** Hex encoding loses nothing: decoding recovers the bytes. */
  lemma {:induction false} HexRoundTrip(bytes: seq<Byte>)
    ensures HexDecode(HexEncode(bytes)) == bytes
  {
    if |bytes| > 0 {
      var s := HexEncode(bytes);
      assert s[2..] == HexEncode(bytes[1..]);
      HexRoundTrip(bytes[1..]);
      assert HexValue(HexDigit(bytes[0] / 16)) == bytes[0] / 16;
      assert HexValue(HexDigit(bytes[0] % 16)) == bytes[0] % 16;
    }
  }

  /** The QR token: 16 random bytes rendered in hex, 32 lowercase hex
      characters that encode exactly those bytes. */
  function QrToken(random: seq<Byte>): (token: string)
    requires |random| == 16
    ensures |token| == 32 && IsLowerHex(token)
    ensures HexDecode(token) == random
  {
    HexRoundTrip(random);
    HexEncode(random)
  }
}
