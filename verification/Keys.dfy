/**
 The object keys of one invocation: the event's raw key has every `+`
 turned into a space and is then percent-decoded; the resized copy is stored
 under `resized/` followed by that decoded key, with content type
 `image/` followed by the type tag.
 */
module Keys {
  import opened Wrappers
  import opened UriCodec
  import opened ImageTypes

  /** `raw.replace(/\+/g, ' ')`. */
  function ReplacePlus(raw: string): (r: string)
    ensures |r| == |raw|
    ensures '+' !in r
    ensures forall k :: 0 <= k < |raw| && raw[k] != '+' ==> r[k] == raw[k]
    ensures forall k :: 0 <= k < |raw| && raw[k] == '+' ==> r[k] == ' '
  {
    seq(|raw|, k requires 0 <= k < |raw| => if raw[k] == '+' then ' ' else raw[k])
  }

  /** The source key: `decodeURIComponent(raw.replace(/\+/g, ' '))`, with
      `None` for the `URIError` a malformed escape throws. */
  function NormaliseKey(raw: string): (r: Option<string>)
    ensures r.Some? ==> |r.value| <= |raw|
    ensures '%' !in raw ==> r == Some(ReplacePlus(raw))
  {
    DecodeReplacedUnescaped(raw);
    Decode(ReplacePlus(raw))
  }

  const DestinationPrefix: string := "resized/"

  const ContentTypePrefix: string := "image/"

  /** The key the resized image is stored under. */
  function DestinationKey(srcKey: string): (r: string)
    ensures |r| == |DestinationPrefix| + |srcKey|
    ensures r[..|DestinationPrefix|] == DestinationPrefix && r[|DestinationPrefix|..] == srcKey
  {
    DestinationPrefix + srcKey
  }

  /** The content type the resized image is stored with. */
  function ContentType(t: ImageType): (r: string)
    ensures r == "image/jpg" || r == "image/png"
    ensures r[|ContentTypePrefix|..] == t.Tag()
  {
    ContentTypePrefix + t.Tag()
  }

  /** Different source keys never share a destination key. */
  lemma DestinationKeyInjective(k1: string, k2: string)
    ensures DestinationKey(k1) == DestinationKey(k2) <==> k1 == k2
  {
    if DestinationKey(k1) == DestinationKey(k2) {
      assert k1 == DestinationKey(k1)[|DestinationPrefix|..];
    }
  }

  /** A key with neither `+` nor `%` is used as it is. */
  lemma NormalisePlainKey(raw: string)
    requires '+' !in raw && '%' !in raw
    ensures NormaliseKey(raw) == Some(raw)
  {
    assert ReplacePlus(raw) == raw;
    DecodeWithoutPercent(raw);
  }

  /** Replacing `+` adds no `%`, so a key without `%` decodes to its
      replaced form. */
  lemma DecodeReplacedUnescaped(raw: string)
    ensures '%' !in raw ==> Decode(ReplacePlus(raw)) == Some(ReplacePlus(raw))
  {
    if '%' !in raw {
      var r := ReplacePlus(raw);
      assert '%' !in r by {
        forall k | 0 <= k < |r| ensures r[k] != '%' {
        }
      }
      DecodeWithoutPercent(r);
    }
  }

  /** `photos/a+b.png` is stored as `photos/a b.png`; its resized copy goes
      to `resized/photos/a b.png`. */
  lemma NormaliseExample(raw: string)
    requires raw == "photos/a+b.png"
    ensures NormaliseKey(raw) == Some("photos/a b.png")
    ensures DestinationKey(NormaliseKey(raw).value) == "resized/photos/a b.png"
  {
    ExampleReplaced(raw);
    ExamplePercentFree(raw);
    ExampleDestination(ReplacePlus(raw));
  }

  /** The `+` replacement step of `NormaliseExample`; kept apart to split its proof. */
  lemma ExampleReplaced(raw: string)
    requires raw == "photos/a+b.png"
    ensures ReplacePlus(raw) == "photos/a b.png"
  {
    var a, b := "photos/a", "b.png";
    ReplacePlusAround(a, b);
    ReplacePlusIdentity(b);
    assert a + "+" + b == raw;
    assert a + " " + b == "photos/a b.png";
  }

  /** The key of `NormaliseExample` has no `%`; kept apart to split its proof. */
  lemma ExamplePercentFree(raw: string)
    requires raw == "photos/a+b.png"
    ensures '%' !in raw
  {
  }

  /** The destination step of `NormaliseExample`; kept apart to split its proof. */
  lemma ExampleDestination(key: string)
    requires key == "photos/a b.png"
    ensures DestinationKey(key) == "resized/photos/a b.png"
  {
  }

  /** Because `+` is replaced before decoding, an escaped plus survives:
      `a%2Bb+c` becomes `a+b c`. */
  lemma EscapedPlusSurvives(raw: string)
    requires raw == "a%2Bb+c"
    ensures NormaliseKey(raw) == Some("a+b c")
  {
    EscapedPlusReplaced(raw);
    EscapedPlusDecoded(ReplacePlus(raw));
  }

  /** The `+` replacement step of `EscapedPlusSurvives`; kept apart to split its proof. */
  lemma EscapedPlusReplaced(raw: string)
    requires raw == "a%2Bb+c"
    ensures ReplacePlus(raw) == "a%2Bb c"
  {
    var a, b := "a%2Bb", "c";
    ReplacePlusAround(a, b);
    ReplacePlusIdentity(b);
    assert a + "+" + b == raw;
    assert a + " " + b == "a%2Bb c";
  }

  /** The decoding step of `EscapedPlusSurvives`; kept apart to split its proof. */
  lemma EscapedPlusDecoded(s: string)
    requires s == "a%2Bb c"
    ensures Decode(s) == Some("a+b c")
  {
    DecodeEscapedPlus("a", "b c");
    assert "a" + "%2B" + "b c" == s;
    assert "a" + "+" + "b c" == "a+b c";
  }

  /** Decoding first and replacing after would lose the difference:
      `a%2Bb+c` would become `a b c`. */
  lemma OtherOrderDiffers(raw: string)
    requires raw == "a%2Bb+c"
    ensures Decode(raw).Some? && ReplacePlus(Decode(raw).value) == "a b c"
  {
    DecodeEscapedPlus("a", "b+c");
    assert "a" + "%2B" + "b+c" == raw;
    assert "a" + "+" + "b+c" == "a+b+c";
    PlusesReplaced("a+b+c");
  }

  /** The replacement step of `OtherOrderDiffers`; kept apart to split its proof. */
  lemma PlusesReplaced(s: string)
    requires s == "a+b+c"
    ensures ReplacePlus(s) == "a b c"
  {
    ReplacePlusAround("a", "b+c");
    ReplacePlusAround("b", "c");
    ReplacePlusIdentity("c");
    assert "a" + "+" + ("b" + "+" + "c") == s;
    assert "b" + "+" + "c" == "b+c";
    assert "a" + " " + ("b" + " " + "c") == "a b c";
  }

  /** `%2B` between two texts without `%` decodes to a literal `+`. */
  lemma DecodeEscapedPlus(a: string, b: string)
    requires '%' !in a && '%' !in b
    ensures Decode(a + "%2B" + b) == Some(a + "+" + b)
  {
    var t := "%2B" + b;
    assert ReadOctet(t) == Some(0x2B);
    assert t[3..] == b;
    DecodeWithoutPercent(b);
    assert (0x2B as char) == '+';
    assert Decode(t) == Some("+" + b);
    DecodePlainPrefix(a, t);
    assert a + "%2B" + b == a + t;
    assert a + "+" + b == a + ("+" + b);
  }

  /** Replacing the first `+` of a text. */
  lemma ReplacePlusAround(a: string, b: string)
    requires '+' !in a
    ensures ReplacePlus(a + "+" + b) == a + " " + ReplacePlus(b)
  {
    ReplacePlusAppend(a + "+", b);
    ReplacePlusAppend(a, "+");
    ReplacePlusIdentity(a);
  }

  /** How the event source writes a key: a space as `+`, a character the
      `literal` set keeps as itself, anything else as the `%HH` triplets of
      its UTF-8 octets. */
  function FormEncode(key: string, literal: char -> bool): string {
    if |key| == 0 then []
    else (if key[0] == ' ' then "+" else EscapeChar(key[0], literal)) + FormEncode(key[1..], literal)
  }

  /** Replacing `+` in a form-encoded key leaves the percent-encoding that
      keeps spaces literal. */
  lemma {:induction false} ReplacePlusFormEncode(key: string, literal: char -> bool)
    requires !literal('+')
    ensures ReplacePlus(FormEncode(key, literal)) == Escape(key, c => literal(c) || c == ' ')
    decreases |key|
  {
    if |key| > 0 {
      var head := if key[0] == ' ' then "+" else EscapeChar(key[0], literal);
      ReplacePlusAppend(head, FormEncode(key[1..], literal));
      ReplacePlusFormEncode(key[1..], literal);
      ReplacePlusFormHead(key[0], literal);
    }
  }

  lemma ReplacePlusFormHead(c: char, literal: char -> bool)
    requires !literal('+')
    ensures ReplacePlus(if c == ' ' then "+" else EscapeChar(c, literal)) == EscapeChar(c, c => literal(c) || c == ' ')
  {
    if c != ' ' && !literal(c) {
      PercentOctetsNoPlus(Utf8.EncodeChar(c));
      ReplacePlusIdentity(EscapeChar(c, literal));
    }
  }

  lemma ReplacePlusAppend(a: string, b: string)
    ensures ReplacePlus(a + b) == ReplacePlus(a) + ReplacePlus(b)
  {
    var whole, parts := ReplacePlus(a + b), ReplacePlus(a) + ReplacePlus(b);
    forall k | 0 <= k < |whole|
      ensures whole[k] == parts[k]
    {
      if k < |a| {
        assert (a + b)[k] == a[k] && parts[k] == ReplacePlus(a)[k];
      } else {
        assert (a + b)[k] == b[k - |a|] && parts[k] == ReplacePlus(b)[k - |a|];
      }
    }
  }

  lemma ReplacePlusIdentity(s: string)
    requires '+' !in s
    ensures ReplacePlus(s) == s
  {
  }

  /** Round trip: the handler recovers every key the event source encodes,
      spaces included, provided the source escapes `%` and `+`. */
  lemma NormaliseFormEncode(key: string, literal: char -> bool)
    requires !literal('%') && !literal('+')
    ensures NormaliseKey(FormEncode(key, literal)) == Some(key)
  {
    ReplacePlusFormEncode(key, literal);
    DecodeEscape(key, c => literal(c) || c == ' ');
  }
}
