/**
 Percent-decoding as ECMAScript's `decodeURIComponent` does it (the `Decode`
 abstract operation with an empty reserved set): each `%HH` triplet is an
 octet (section 2.1 of RFC 3986), octets at or above 0x80 must form, with the
 triplets that follow, the UTF-8 encoding of one code point, and every other
 character is copied. Any malformed input is a `URIError`, modelled as `None`.

 The partner is a percent-encoder that keeps a chosen set of characters
 literally and writes every other character as the triplets of its UTF-8
 octets, upper-case hex, as `encodeURIComponent` does.
 */
module UriCodec {
  import opened Wrappers
  import opened Utf8

  predicate IsHexDigit(c: char) {
    '0' <= c <= '9' || 'a' <= c <= 'f' || 'A' <= c <= 'F'
  }

  function HexValue(c: char): (v: nat)
    requires IsHexDigit(c)
    ensures v < 16
  {
    if '0' <= c <= '9' then c as int - '0' as int
    else if 'a' <= c <= 'f' then c as int - 'a' as int + 10
    else c as int - 'A' as int + 10
  }

  /** The upper-case hex digit for a value below 16. */
  function HexDigit(v: nat): (c: char)
    requires v < 16
    ensures IsHexDigit(c) && HexValue(c) == v
  {
    if v < 10 then ('0' as int + v) as char else ('A' as int + v - 10) as char
  }

  /** The octet written by the `%HH` triplet at the start of `s`, if there is one. */
  function ReadOctet(s: string): (r: Option<byte>)
    ensures r.Some? ==> |s| >= 3 && s[0] == '%'
  {
    if |s| >= 3 && s[0] == '%' && IsHexDigit(s[1]) && IsHexDigit(s[2])
    then Some(HexValue(s[1]) * 16 + HexValue(s[2]))
    else None
  }

  /** The octets of `n` consecutive triplets at the start of `s`. */
  function ReadOctets(s: string, n: nat): (r: Option<seq<byte>>)
    ensures r.Some? ==> |r.value| == n && |s| >= 3 * n
    decreases n
  {
    if n == 0 then Some([])
    else
      var b :- ReadOctet(s);
      var rest :- ReadOctets(s[3..], n - 1);
      Some([b] + rest)
  }

  /** `decodeURIComponent(s)`, with `None` for the `URIError` it throws. */
  function Decode(s: string): (r: Option<string>)
    ensures r.Some? ==> |r.value| <= |s|
    decreases |s|
  {
    if |s| == 0 then Some([])
    else if s[0] != '%' then
      var rest :- Decode(s[1..]);
      Some([s[0]] + rest)
    else
      var b :- ReadOctet(s);
      var n := LeadingOnes(b);
      if n == 0 then
        var rest :- Decode(s[3..]);
        Some([b as char] + rest)
      else if n == 1 || n > 4 then None
      else
        var more :- ReadOctets(s[3..], n - 1);
        var c :- DecodeChar([b] + more);
        var rest :- Decode(s[3 * n..]);
        Some([c] + rest)
  }

  /** The `%HH` triplets for a sequence of octets. */
  function PercentOctets(bs: seq<byte>): (r: string)
    ensures |r| == 3 * |bs|
  {
    if |bs| == 0 then []
    else ['%', HexDigit(bs[0] / 16), HexDigit(bs[0] % 16)] + PercentOctets(bs[1..])
  }

  /** An escape never contains `+`. */
  lemma {:induction false} PercentOctetsNoPlus(bs: seq<byte>)
    ensures '+' !in PercentOctets(bs)
    decreases |bs|
  {
    if |bs| > 0 {
      PercentOctetsNoPlus(bs[1..]);
      var head := ['%', HexDigit(bs[0] / 16), HexDigit(bs[0] % 16)];
      assert PercentOctets(bs) == head + PercentOctets(bs[1..]);
    }
  }

  /** The first triplet of an escape reads back as the first octet. */
  lemma ReadFirstOctet(bs: seq<byte>, t: string)
    requires |bs| > 0
    ensures ReadOctet(PercentOctets(bs) + t) == Some(bs[0])
    ensures (PercentOctets(bs) + t)[3..] == PercentOctets(bs[1..]) + t
  {
    var rest := PercentOctets(bs[1..]) + t;
    assert PercentOctets(bs) + t == ['%', HexDigit(bs[0] / 16), HexDigit(bs[0] % 16)] + rest;
    ReadTriplet(bs[0], rest);
  }

  /** A triplet written for octet `b` reads back as `b`. */
  lemma ReadTriplet(b: byte, rest: string)
    ensures ReadOctet(['%', HexDigit(b / 16), HexDigit(b % 16)] + rest) == Some(b)
    ensures (['%', HexDigit(b / 16), HexDigit(b % 16)] + rest)[3..] == rest
  {
    HexPair(b);
  }

  lemma HexPair(b: byte)
    ensures HexValue(HexDigit(b / 16)) * 16 + HexValue(HexDigit(b % 16)) == b
  {
  }

  /** One character as the encoder writes it: itself if `literal` keeps it,
      otherwise the triplets of its UTF-8 octets. */
  function EscapeChar(c: char, literal: char -> bool): string {
    if literal(c) then [c] else PercentOctets(EncodeChar(c))
  }

  /** Percent-encodes `s`, keeping the characters `literal` selects.
      With `literal` the unreserved set below this is `encodeURIComponent`. */
  function Escape(s: string, literal: char -> bool): string {
    if |s| == 0 then [] else EscapeChar(s[0], literal) + Escape(s[1..], literal)
  }

  /** The characters `encodeURIComponent` leaves as they are. */
  predicate IsUnreserved(c: char) {
    || 'A' <= c <= 'Z' || 'a' <= c <= 'z' || '0' <= c <= '9'
    || c == '-' || c == '_' || c == '.' || c == '!' || c == '~'
    || c == '*' || c == '\'' || c == '(' || c == ')'
  }

  function EncodeComponent(s: string): string {
    Escape(s, IsUnreserved)
  }

  /** Decoding the escape of one character consumes exactly that escape. */
  lemma DecodeEscapeChar(c: char, literal: char -> bool, t: string)
    requires !literal('%')
    ensures Decode(EscapeChar(c, literal) + t) ==
            (match Decode(t) case None => None case Some(u) => Some([c] + u))
  {
    if literal(c) {
      assert ([c] + t)[1..] == t;
    } else if c as int < 0x80 {
      DecodeEscapedAscii(c, t);
    } else {
      DecodeEscapedMulti(c, t);
    }
  }

  lemma DecodeEscapedAscii(c: char, t: string)
    requires c as int < 0x80
    ensures Decode(PercentOctets(EncodeChar(c)) + t) ==
            (match Decode(t) case None => None case Some(u) => Some([c] + u))
  {
    var bs := EncodeChar(c);
    ReadFirstOctet(bs, t);
    assert bs[1..] == [];
    assert bs[0] as char == c;
  }

  lemma DecodeEscapedMulti(c: char, t: string)
    requires c as int >= 0x80
    ensures Decode(PercentOctets(EncodeChar(c)) + t) ==
            (match Decode(t) case None => None case Some(u) => Some([c] + u))
  {
    var bs := EncodeChar(c);
    ParsePercentOctets(bs, t);
    EncodeDecodes(c);
    DecodeMultiStep(PercentOctets(bs) + t, bs, c);
  }

  /** The triplets of a group of octets read back as that group. */
  lemma ParsePercentOctets(bs: seq<byte>, t: string)
    requires |bs| > 0
    ensures var s := PercentOctets(bs) + t;
            && ReadOctet(s) == Some(bs[0])
            && |s| >= 3 * |bs|
            && ReadOctets(s[3..], |bs| - 1) == Some(bs[1..])
            && s[3 * |bs|..] == t
  {
    ReadFirstOctet(bs, t);
    ReadOctetsOfPercent(bs[1..], t);
  }

  /** One unfolding of `Decode` at a multi-octet escape. */
  lemma DecodeMultiStep(s: string, bs: seq<byte>, c: char)
    requires 2 <= |bs| <= 4 && |s| >= 3 * |bs|
    requires ReadOctet(s) == Some(bs[0]) && LeadingOnes(bs[0]) == |bs|
    requires ReadOctets(s[3..], |bs| - 1) == Some(bs[1..])
    requires DecodeChar(bs) == Some(c)
    ensures Decode(s) == (match Decode(s[3 * |bs|..]) case None => None case Some(u) => Some([c] + u))
  {
    assert [bs[0]] + bs[1..] == bs;
  }

  lemma {:induction false} ReadOctetsOfPercent(bs: seq<byte>, t: string)
    ensures ReadOctets(PercentOctets(bs) + t, |bs|) == Some(bs)
    decreases |bs|
  {
    if |bs| > 0 {
      ReadFirstOctet(bs, t);
      ReadOctetsOfPercent(bs[1..], t);
      assert [bs[0]] + bs[1..] == bs;
    }
  }

  /** Round trip: decoding what the encoder wrote gives back the original
      text, whatever set of characters is kept literally, as long as `%`
      itself is always escaped. */
  lemma {:induction false} DecodeEscape(s: string, literal: char -> bool)
    requires !literal('%')
    ensures Decode(Escape(s, literal)) == Some(s)
    decreases |s|
  {
    if |s| > 0 {
      DecodeEscape(s[1..], literal);
      DecodeEscapeChar(s[0], literal, Escape(s[1..], literal));
      assert [s[0]] + s[1..] == s;
    }
  }

  /** `decodeURIComponent(encodeURIComponent(s)) == s`. */
  lemma DecodeEncodeComponent(s: string)
    ensures Decode(EncodeComponent(s)) == Some(s)
  {
    DecodeEscape(s, IsUnreserved);
  }

  /** Text without `%` is copied unchanged. */
  lemma {:induction false} DecodeWithoutPercent(s: string)
    requires '%' !in s
    ensures Decode(s) == Some(s)
    decreases |s|
  {
    if |s| > 0 {
      assert s[0] != '%';
      assert '%' !in s[1..] by {
        assert forall k :: 0 <= k < |s| - 1 ==> s[1..][k] == s[k + 1];
      }
      DecodeWithoutPercent(s[1..]);
      assert [s[0]] + s[1..] == s;
    }
  }

  /** A prefix without `%` is copied in front of whatever the rest decodes to. */
  lemma {:induction false} DecodePlainPrefix(a: string, t: string)
    requires '%' !in a
    ensures Decode(a + t) == (match Decode(t) case None => None case Some(u) => Some(a + u))
    decreases |a|
  {
    if |a| == 0 {
      assert a + t == t;
      if Decode(t).Some? {
        assert a + Decode(t).value == Decode(t).value;
      }
    } else {
      assert (a + t)[1..] == a[1..] + t;
      DecodePlainStep(a + t);
      DecodePlainPrefix(a[1..], t);
      if Decode(t).Some? {
        var u := Decode(t).value;
        assert a + u == [a[0]] + (a[1..] + u);
      }
    }
  }

  /** One unfolding of `Decode` at a character other than `%`. */
  lemma DecodePlainStep(s: string)
    requires |s| > 0 && s[0] != '%'
    ensures Decode(s) == (match Decode(s[1..]) case None => None case Some(u) => Some([s[0]] + u))
  {
  }

  /** A `%` that does not start a `%HH` triplet of hex digits is an error,
      wherever it stands. */
  lemma DecodeBadTriplet(a: string, t: string)
    requires '%' !in a && ReadOctet("%" + t).None?
    ensures Decode(a + "%" + t) == None
  {
    DecodePlainPrefix(a, "%" + t);
    assert a + "%" + t == a + ("%" + t);
  }

  /** A triplet whose octet is a continuation octet (`10xxxxxx`) or cannot
      start a sequence of at most four octets is an error. */
  lemma DecodeBadLead(a: string, t: string)
    requires '%' !in a && ReadOctet(t).Some?
    requires LeadingOnes(ReadOctet(t).value) == 1 || LeadingOnes(ReadOctet(t).value) > 4
    ensures Decode(a + t) == None
  {
    DecodePlainPrefix(a, t);
  }

  /** A lead octet for `n` octets must be followed by `n - 1` triplets that
      together encode one code point; otherwise decoding fails. */
  lemma DecodeBadGroup(a: string, t: string)
    requires '%' !in a && ReadOctet(t).Some?
    requires 2 <= LeadingOnes(ReadOctet(t).value) <= 4
    requires var more := ReadOctets(t[3..], LeadingOnes(ReadOctet(t).value) - 1);
             more.None? || DecodeChar([ReadOctet(t).value] + more.value).None?
    ensures Decode(a + t) == None
  {
    DecodePlainPrefix(a, t);
  }

  /** Hex digits are read without regard to case. */
  lemma HexValueIgnoresCase(c: char)
    requires 'a' <= c <= 'f'
    ensures IsHexDigit((c as int - 32) as char) && HexValue(c) == HexValue((c as int - 32) as char)
  {
  }

  /** A triplet for an octet below 0x80, in either case, decodes to that
      character and decoding carries on after it. */
  lemma DecodeAsciiTriplet(c1: char, c2: char, t: string)
    requires IsHexDigit(c1) && IsHexDigit(c2) && HexValue(c1) < 8
    ensures Decode(['%', c1, c2] + t) ==
              (match Decode(t) case None => None case Some(u) => Some([(HexValue(c1) * 16 + HexValue(c2)) as char] + u))
  {
    var s := ['%', c1, c2] + t;
    assert s[3..] == t;
    assert ReadOctet(s) == Some(HexValue(c1) * 16 + HexValue(c2));
  }

  /** Concrete malformed keys: a cut-off triplet and non-hex digits. */
  lemma MalformedTriplets(s1: string, s2: string)
    requires s1 == "%4" && s2 == "%ZZ"
    ensures Decode(s1) == None && Decode(s2) == None
  {
    DecodeBadTriplet("", "4");
    DecodeBadTriplet("", "ZZ");
    assert "" + "%" + "4" == s1 && "" + "%" + "ZZ" == s2;
  }

  /** A stray continuation octet `%80` is refused. */
  lemma StrayContinuation(s: string)
    requires s == "%80"
    ensures Decode(s) == None
  {
    assert ReadOctet(s) == Some(0x80);
    DecodeBadLead("", s);
    assert "" + s == s;
  }

  /** The overlong form `%C0%80` of U+0000 is refused. */
  lemma OverlongRefused(s: string)
    requires s == "%C0%80"
    ensures Decode(s) == None
  {
    var rest := s[3..];
    assert rest == "%80";
    assert ReadOctet(s) == Some(0xC0);
    assert ReadOctet(rest) == Some(0x80) && rest[3..] == [];
    var more: seq<byte> := [0x80];
    assert ReadOctets(rest[3..], 0) == Some([]) && more == [0x80] + [];
    assert ReadOctets(rest, 1) == Some(more);
    assert DecodeChar([0xC0, 0x80]) == None;
    DecodeBadGroup("", s);
    assert "" + s == s;
  }

  /** The encoded surrogate `%ED%A0%80` (U+D800) is refused. */
  lemma SurrogateRefused(s: string)
    requires s == "%ED%A0%80"
    ensures Decode(s) == None
  {
    var rest := s[3..];
    assert rest == "%A0%80" && rest[3..] == "%80";
    assert ReadOctet(s) == Some(0xED);
    assert ReadOctet(rest) == Some(0xA0);
    assert ReadOctet(rest[3..]) == Some(0x80) && rest[3..][3..] == [];
    var last: seq<byte> := [0x80];
    var more: seq<byte> := [0xA0, 0x80];
    assert ReadOctets(rest[3..][3..], 0) == Some([]) && last == [0x80] + [];
    assert ReadOctets(rest[3..], 1) == Some(last);
    assert more == [0xA0] + last;
    assert ReadOctets(rest, 2) == Some(more);
    assert DecodeChar([0xED, 0xA0, 0x80]) == None;
    DecodeBadGroup("", s);
    assert "" + s == s;
  }

  /** Lower-case hex digits decode as upper-case ones do: `%4a` and `%4A`
      are both `J`. */
  lemma LowerCaseExample(lower: string, upper: string)
    requires lower == "%4a" && upper == "%4A"
    ensures Decode(lower) == Decode(upper) == Some("J")
  {
    DecodeAsciiTriplet('4', 'a', "");
    DecodeAsciiTriplet('4', 'A', "");
    assert lower == ['%', '4', 'a'] + "" && upper == ['%', '4', 'A'] + "";
    assert HexValue('4') * 16 + HexValue('a') == 0x4A == HexValue('4') * 16 + HexValue('A');
    assert Decode("") == Some("");
    assert [0x4A as char] + "" == "J";
  }
}
