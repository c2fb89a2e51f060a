/**
 * `crypto.randomBytes(32).toString("hex")`: the random bytes are an input of
 * the model; their lower-case hexadecimal rendering is computed here, two
 * digits per byte, high nibble first.  `Decode` is its inverse.
 */
module Hex {
  import opened Wrappers

  type byte = x: int | 0 <= x < 256

  /** The 32 bytes `crypto.randomBytes(32)` yields. */
  type Bytes32 = b: seq<byte> | |b| == 32 witness seq(32, _ => 0 as byte)

  const Digits: string := "0123456789abcdef"

  predicate IsLowerHex(s: string)
  {
    forall k | 0 <= k < |s| :: s[k] in Digits
  }

  function DigitValue(c: char): Option<nat>
  {
    if '0' <= c <= '9' then Some(c as int - '0' as int)
    else if 'a' <= c <= 'f' then Some(c as int - 'a' as int + 10)
    else None
  }

  /** `Buffer.toString("hex")`. */
  function Encode(bytes: seq<byte>): (s: string)
    ensures |s| == 2 * |bytes|
    ensures IsLowerHex(s)
  {
    if bytes == [] then []
    else [Digits[bytes[0] / 16], Digits[bytes[0] % 16]] + Encode(bytes[1..])
  }

  /** Reads back a lower-case hexadecimal string; `None` on odd length or a non-digit. */
  function Decode(s: string): Option<seq<byte>>
  {
    if |s| == 0 then Some([])
    else if |s| == 1 then None
    else
      match (DigitValue(s[0]), DigitValue(s[1]), Decode(s[2..]))
      case (Some(hi), Some(lo), Some(rest)) => Some([(hi * 16 + lo) as byte] + rest)
      case _ => None
  }

  /** Every digit `Encode` writes reads back as the nibble it came from. */
  lemma DigitRoundTrip(n: nat)
    requires n < 16
    ensures DigitValue(Digits[n]) == Some(n)
  {
  }

  /** One step of `Decode`: two digits and a decodable rest. */
  lemma DecodeStep(s: string, hi: nat, lo: nat, rest: seq<byte>)
    requires |s| >= 2 && hi < 16 && lo < 16
    requires DigitValue(s[0]) == Some(hi) && DigitValue(s[1]) == Some(lo)
    requires Decode(s[2..]) == Some(rest)
    ensures Decode(s) == Some([(hi * 16 + lo) as byte] + rest)
  {
  }

  /** Decoding an encoding gives back the bytes. */
  lemma {:induction false} RoundTrip(bytes: seq<byte>)
    ensures Decode(Encode(bytes)) == Some(bytes)
  {
    if bytes != [] {
      var b := bytes[0];
      var hi, lo := b / 16, b % 16;
      assert hi * 16 + lo == b;
      var s := Encode(bytes);
      assert s == [Digits[hi], Digits[lo]] + Encode(bytes[1..]);
      assert s[2..] == Encode(bytes[1..]);
      DigitRoundTrip(hi);
      DigitRoundTrip(lo);
      RoundTrip(bytes[1..]);
      DecodeStep(s, hi, lo, bytes[1..]);
      assert (hi * 16 + lo) as byte == b;
      assert [b] + bytes[1..] == bytes;
      assert Decode(s) == Some(bytes);
    }
  }

  /** Different random bytes give different tokens. */
  lemma EncodeInjective(a: seq<byte>, b: seq<byte>)
    requires Encode(a) == Encode(b)
    ensures a == b
  {
    RoundTrip(a);
    RoundTrip(b);
  }

  /** A token made from 32 random bytes is 64 lower-case hexadecimal digits. */
  lemma TokenShape(random: Bytes32)
    ensures |Encode(random)| == 64 && IsLowerHex(Encode(random))
  {
  }
}
