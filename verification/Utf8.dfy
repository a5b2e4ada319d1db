/**
 UTF-8 (RFC 3629) for a single Unicode scalar value: the octets `Buffer.from`
 writes for a character, and the decoding step of ECMAScript's `Decode`, which
 accepts a group of octets only if it is the shortest-form encoding of a scalar
 value.
 */
module Utf8 {
  import opened Wrappers

  type byte = x: int | 0 <= x < 256

  /** True for the octets `10xxxxxx` that continue a multi-octet sequence. */
  predicate IsContinuation(b: byte) {
    0x80 <= b < 0xC0
  }

  /** The number of leading one bits of an octet: 0 for ASCII, 1 for a
      continuation octet, 2 to 4 for a lead octet, more than 4 for octets
      that never occur in UTF-8. */
  function LeadingOnes(b: byte): (n: nat)
    ensures n <= 8
    ensures n == 0 <==> b < 0x80
  {
    if b < 0x80 then 0
    else if b < 0xC0 then 1
    else if b < 0xE0 then 2
    else if b < 0xF0 then 3
    else if b < 0xF8 then 4
    else if b < 0xFC then 5
    else if b < 0xFE then 6
    else if b < 0xFF then 7
    else 8
  }

  /** The UTF-8 octets of one character: the value split into 6-bit groups,
      the first carrying the length marker, the rest marked `10`. */
  function EncodeChar(c: char): (bs: seq<byte>)
    ensures 1 <= |bs| <= 4
    ensures |bs| == 1 <==> c as int < 0x80
    ensures |bs| == 1 || LeadingOnes(bs[0]) == |bs|
    ensures forall k :: 1 <= k < |bs| ==> IsContinuation(bs[k])
  {
    var v := c as int;
    if v < 0x80 then [v]
    else if v < 0x800 then [0xC0 + v / 64, 0x80 + v % 64]
    else if v < 0x1_0000 then [0xE0 + v / 64 / 64, 0x80 + v / 64 % 64, 0x80 + v % 64]
    else [0xF0 + v / 64 / 64 / 64, 0x80 + v / 64 / 64 % 64, 0x80 + v / 64 % 64, 0x80 + v % 64]
  }

  /** The value carried by the low bits of an octet once its marker is removed. */
  function Low(b: byte, marker: int): int {
    b as int - marker
  }

  /** Decodes a group of octets that must hold exactly one code point:
      the lead octet fixes the length, every other octet is a continuation,
      and the value is neither overlong, nor a surrogate, nor above U+10FFFF. */
  function DecodeChar(bs: seq<byte>): (r: Option<char>)
    ensures r.Some? ==> 1 <= |bs| <= 4
  {
    if |bs| == 0 then None
    else if |bs| == 1 then
      if bs[0] < 0x80 then Some(bs[0] as char) else None
    else if LeadingOnes(bs[0]) != |bs| || |bs| > 4 then None
    else if !IsContinuation(bs[1]) then None
    else if |bs| == 2 then
      var v := Low(bs[0], 0xC0) * 64 + Low(bs[1], 0x80);
      if v < 0x80 then None else Some(v as char)
    else if !IsContinuation(bs[2]) then None
    else if |bs| == 3 then
      var v := (Low(bs[0], 0xE0) * 64 + Low(bs[1], 0x80)) * 64 + Low(bs[2], 0x80);
      if v < 0x800 || (0xD800 <= v < 0xE000) then None else Some(v as char)
    else if !IsContinuation(bs[3]) then None
    else
      var v := ((Low(bs[0], 0xF0) * 64 + Low(bs[1], 0x80)) * 64 + Low(bs[2], 0x80)) * 64 + Low(bs[3], 0x80);
      if v < 0x1_0000 || v >= 0x11_0000 then None else Some(v as char)
  }

  /** Decoding accepts exactly the encodings: a group of octets decodes to `c`
      if and only if it is the UTF-8 encoding of `c`. */
  lemma DecodeCharIff(bs: seq<byte>, c: char)
    ensures DecodeChar(bs) == Some(c) <==> bs == EncodeChar(c)
  {
    if bs == EncodeChar(c) {
      EncodeDecodes(c);
    }
    if DecodeChar(bs) == Some(c) {
      DecodedIsEncoding(bs);
    }
  }

  lemma DivMod64(q: int, r: int)
    requires 0 <= r < 64
    ensures (q * 64 + r) / 64 == q && (q * 64 + r) % 64 == r
  {
  }

  lemma EncodeDecodes(c: char)
    ensures DecodeChar(EncodeChar(c)) == Some(c)
  {
    var v := c as int;
    var bs := EncodeChar(c);
    if v < 0x80 {
    } else if v < 0x800 {
      DivMod64(v / 64, v % 64);
      assert Low(bs[0], 0xC0) * 64 + Low(bs[1], 0x80) == v;
    } else if v < 0x1_0000 {
      assert Low(bs[0], 0xE0) * 64 + Low(bs[1], 0x80) == v / 64;
      assert (Low(bs[0], 0xE0) * 64 + Low(bs[1], 0x80)) * 64 + Low(bs[2], 0x80) == v;
    } else {
      assert Low(bs[0], 0xF0) * 64 + Low(bs[1], 0x80) == v / 64 / 64;
      assert (Low(bs[0], 0xF0) * 64 + Low(bs[1], 0x80)) * 64 + Low(bs[2], 0x80) == v / 64;
      assert ((Low(bs[0], 0xF0) * 64 + Low(bs[1], 0x80)) * 64 + Low(bs[2], 0x80)) * 64 + Low(bs[3], 0x80) == v;
    }
  }

  lemma DecodedIsEncoding(bs: seq<byte>)
    requires DecodeChar(bs).Some?
    ensures EncodeChar(DecodeChar(bs).value) == bs
  {
    var v := DecodeChar(bs).value as int;
    if |bs| == 2 {
      DivMod64(Low(bs[0], 0xC0), Low(bs[1], 0x80));
    } else if |bs| == 3 {
      var hi := Low(bs[0], 0xE0) * 64 + Low(bs[1], 0x80);
      DivMod64(hi, Low(bs[2], 0x80));
      DivMod64(Low(bs[0], 0xE0), Low(bs[1], 0x80));
    } else if |bs| == 4 {
      var hi := Low(bs[0], 0xF0) * 64 + Low(bs[1], 0x80);
      var mid := hi * 64 + Low(bs[2], 0x80);
      DivMod64(mid, Low(bs[3], 0x80));
      DivMod64(hi, Low(bs[2], 0x80));
      DivMod64(Low(bs[0], 0xF0), Low(bs[1], 0x80));
    }
  }
}
