/**
  Bytes, SHA-256 digests and their lower-case hexadecimal rendering, as produced
  by the `%x` verb of `fmt.Sprintf` applied to a byte slice: two characters per
  byte, high nibble first.

  The digest function itself is not modelled: the ledger receives it as a
  parameter of type `string -> Digest`, so every property proved below holds for
  any function that yields 32 bytes.
*/
module Hex {
  import opened Wrappers

  newtype byte = x: int | 0 <= x < 256

  const DigestLength := 32

  /** A SHA-256 sum: exactly 32 bytes. */
  type Digest = d: seq<byte> | |d| == DigestLength witness seq(DigestLength, _ => 0)

  predicate IsHexDigit(c: char) {
    '0' <= c <= '9' || 'a' <= c <= 'f'
  }

  function HexDigit(v: nat): (c: char)
    requires v < 16
    ensures IsHexDigit(c)
  {
    if v < 10 then ('0' as int + v) as char else ('a' as int + v - 10) as char
  }

  /** The value of one lower-case hexadecimal digit, or None for any other character. */
  function Nibble(c: char): (r: Option<nat>)
    ensures r.Some? <==> IsHexDigit(c)
    ensures r.Some? ==> r.value < 16
  {
    if '0' <= c <= '9' then Some(c as int - '0' as int)
    else if 'a' <= c <= 'f' then Some(c as int - 'a' as int + 10)
    else None
  }

  /** `fmt.Sprintf("%x", d)`. */
  function Encode(d: seq<byte>): (s: string)
    ensures |s| == 2 * |d|
    ensures forall i :: 0 <= i < |s| ==> IsHexDigit(s[i])
  {
    if |d| == 0 then ""
    else [HexDigit(d[0] as int / 16), HexDigit(d[0] as int % 16)] + Encode(d[1..])
  }

  /** Reads pairs of hexadecimal digits back into bytes; rejects odd lengths and other characters. */
  function Decode(s: string): Option<seq<byte>>
    decreases |s|
  {
    if |s| == 0 then Some([])
    else if |s| == 1 then None
    else
      match (Nibble(s[0]), Nibble(s[1]), Decode(s[2..]))
      case (Some(hi), Some(lo), Some(rest)) => Some([(hi * 16 + lo) as byte] + rest)
      case _ => None
  }

  lemma NibbleOfHexDigit(v: nat)
    requires v < 16
    ensures Nibble(HexDigit(v)) == Some(v)
  {
  }

  /** Decoding the hexadecimal rendering of any byte string gives back those bytes. */
  lemma {:induction false} DecodeEncode(d: seq<byte>)
    ensures Decode(Encode(d)) == Some(d)
  {
    if |d| > 0 {
      var hi, lo := d[0] as int / 16, d[0] as int % 16;
      var s := Encode(d);
      assert s[0] == HexDigit(hi) && s[1] == HexDigit(lo);
      assert s[2..] == Encode(d[1..]);
      NibbleOfHexDigit(hi);
      NibbleOfHexDigit(lo);
      DecodeEncode(d[1..]);
      assert (hi * 16 + lo) as byte == d[0];
      assert [d[0]] + d[1..] == d;
    }
  }

  /** Distinct byte strings have distinct renderings. */
  lemma EncodeInjective(a: seq<byte>, b: seq<byte>)
    ensures Encode(a) == Encode(b) <==> a == b
  {
    if Encode(a) == Encode(b) {
      DecodeEncode(a);
      DecodeEncode(b);
    }
  }
}
