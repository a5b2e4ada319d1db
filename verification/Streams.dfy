/**
 `streamToBuffer`: drain a response body into one buffer. A chunk is either
 bytes or text; text is turned into its UTF-8 octets (`Buffer.from(chunk)`),
 and the chunks are concatenated in arrival order (`Buffer.concat`).
 */
module Streams {
  import opened Wrappers
  import opened Utf8

  datatype Chunk = Text(text: string) | Binary(bytes: seq<byte>)

  /** The UTF-8 octets of a string, as `Buffer.from` writes them. */
  function EncodeString(s: string): (bs: seq<byte>)
    ensures |bs| >= |s|
  {
    if |s| == 0 then [] else EncodeChar(s[0]) + EncodeString(s[1..])
  }

  /** The number of octets in the group an octet leads: one for ASCII,
      otherwise its leading one bits. */
  function GroupLength(b: byte): (n: nat)
    ensures n >= 1
  {
    if b < 0x80 then 1 else LeadingOnes(b)
  }

  /** Reads UTF-8 octets back into text, one group at a time; `None` when a
      group is cut short or is not the encoding of a scalar value. */
  function DecodeString(bs: seq<byte>): (r: Option<string>)
    ensures r.Some? ==> |r.value| <= |bs|
    decreases |bs|
  {
    if |bs| == 0 then Some([])
    else
      var n := GroupLength(bs[0]);
      if n > |bs| then None
      else
        match DecodeChar(bs[..n])
        case None => None
        case Some(c) =>
          match DecodeString(bs[n..])
          case None => None
          case Some(t) => Some([c] + t)
  }

  /** The octets `Buffer.from` writes for a text read back as that text. */
  lemma {:induction false} EncodeStringDecodes(s: string)
    ensures DecodeString(EncodeString(s)) == Some(s)
    decreases |s|
  {
    if |s| > 0 {
      var e := EncodeChar(s[0]);
      var bs := EncodeString(s);
      assert bs == e + EncodeString(s[1..]);
      assert GroupLength(bs[0]) == |e|;
      assert bs[..|e|] == e && bs[|e|..] == EncodeString(s[1..]);
      EncodeDecodes(s[0]);
      EncodeStringDecodes(s[1..]);
      assert [s[0]] + s[1..] == s;
    }
  }

  /** The octets a chunk contributes: a text chunk its UTF-8 encoding, at
      least one octet per character; a binary chunk itself. */
  function ChunkBytes(c: Chunk): (r: seq<byte>)
    ensures c.Text? ==> |r| >= |c.text|
    ensures c.Binary? ==> r == c.bytes
  {
    match c
    case Text(s) => EncodeString(s)
    case Binary(bs) => bs
  }

  /** A text chunk's octets read back as its text. */
  lemma TextChunkReadsBack(s: string)
    ensures DecodeString(ChunkBytes(Text(s))) == Some(s)
  {
    EncodeStringDecodes(s);
  }

  /** The sum of the lengths of `bufs`. */
  function TotalLength(bufs: seq<seq<byte>>): nat {
    if |bufs| == 0 then 0 else TotalLength(bufs[..|bufs| - 1]) + |bufs[|bufs| - 1]|
  }

  /** The buffers joined end to end, in order. */
  function Concat(bufs: seq<seq<byte>>): (r: seq<byte>)
    ensures |r| == TotalLength(bufs)
  {
    if |bufs| == 0 then [] else Concat(bufs[..|bufs| - 1]) + bufs[|bufs| - 1]
  }

  /** Concatenation distributes over appending lists of buffers. */
  lemma {:induction false} ConcatAppend(a: seq<seq<byte>>, b: seq<seq<byte>>)
    ensures Concat(a + b) == Concat(a) + Concat(b)
    decreases |b|
  {
    if |b| > 0 {
      var b' := b[..|b| - 1];
      assert (a + b)[..|a + b| - 1] == a + b';
      ConcatAppend(a, b');
      assert (a + b)[|a + b| - 1] == b[|b| - 1];
    } else {
      assert a + b == a;
    }
  }

  lemma SingleConcat(buf: seq<byte>)
    ensures Concat([buf]) == buf
  {
    var one: seq<seq<byte>> := [buf];
    assert one[..0] == [];
  }

  /** Buffer `j` appears whole at offset `TotalLength(bufs[..j])`, so every
      buffer is kept, in its place, with nothing between. */
  lemma ConcatAt(bufs: seq<seq<byte>>, j: nat)
    requires j < |bufs|
    ensures TotalLength(bufs[..j]) + |bufs[j]| <= |Concat(bufs)|
    ensures Concat(bufs)[TotalLength(bufs[..j])..TotalLength(bufs[..j]) + |bufs[j]|] == bufs[j]
  {
    assert bufs == bufs[..j] + ([bufs[j]] + bufs[j + 1..]);
    ConcatAppend(bufs[..j], [bufs[j]] + bufs[j + 1..]);
    ConcatAppend([bufs[j]], bufs[j + 1..]);
    SingleConcat(bufs[j]);
  }

  /** The byte view of every chunk of a stream. */
  function ChunksBytes(stream: seq<Chunk>): (r: seq<seq<byte>>)
    ensures |r| == |stream|
  {
    seq(|stream|, j requires 0 <= j < |stream| => ChunkBytes(stream[j]))
  }

  /** Every buffer of `bufs` sits whole in their concatenation, right after
      the buffers before it. */
  lemma ConcatPlaced(bufs: seq<seq<byte>>)
    ensures forall j :: 0 <= j < |bufs| ==> Placed(Concat(bufs), bufs, j)
  {
    forall j | 0 <= j < |bufs|
      ensures Placed(Concat(bufs), bufs, j)
    {
      ConcatAt(bufs, j);
    }
  }

  /** The buffer a fully drained stream yields: each chunk's bytes, in
      order, with nothing between them. */
  function Collapse(stream: seq<Chunk>): (r: seq<byte>)
    ensures |r| == TotalLength(ChunksBytes(stream))
    ensures forall j :: 0 <= j < |stream| ==> Placed(r, ChunksBytes(stream), j)
  {
    ConcatPlaced(ChunksBytes(stream));
    Concat(ChunksBytes(stream))
  }

  /** Buffer `j` of `bufs` sits in `buf` right after the buffers before it. */
  predicate Placed(buf: seq<byte>, bufs: seq<seq<byte>>, j: nat)
    requires j < |bufs|
  {
    var offset := TotalLength(bufs[..j]);
    offset + |bufs[j]| <= |buf| && buf[offset..offset + |bufs[j]|] == bufs[j]
  }

  /** The source's loop: push each coerced chunk, then concatenate. */
  method StreamToBuffer(stream: seq<Chunk>) returns (buf: seq<byte>)
    ensures buf == Collapse(stream)
    ensures |buf| == TotalLength(ChunksBytes(stream))
    ensures |stream| == 0 ==> buf == []
    ensures forall j :: 0 <= j < |stream| ==> Placed(buf, ChunksBytes(stream), j)
  {
    var chunks: seq<seq<byte>> := [];
    var i := 0;
    while i < |stream|
      invariant 0 <= i <= |stream|
      invariant chunks == ChunksBytes(stream)[..i]
    {
      chunks := chunks + [ChunkBytes(stream[i])];
      i := i + 1;
    }
    assert chunks == ChunksBytes(stream);
    buf := Concat(chunks);
  }

  lemma {:induction false} EncodeStringAppend(a: string, b: string)
    ensures EncodeString(a + b) == EncodeString(a) + EncodeString(b)
    decreases |a|
  {
    if |a| > 0 {
      assert (a + b)[1..] == a[1..] + b;
      EncodeStringAppend(a[1..], b);
    } else {
      assert a + b == b;
    }
  }

  /** Draining two streams one after the other gives their buffers in order. */
  lemma CollapseAppend(s1: seq<Chunk>, s2: seq<Chunk>)
    ensures Collapse(s1 + s2) == Collapse(s1) + Collapse(s2)
  {
    assert ChunksBytes(s1 + s2) == ChunksBytes(s1) + ChunksBytes(s2);
    ConcatAppend(ChunksBytes(s1), ChunksBytes(s2));
  }

  /** Cutting a text between two characters does not change the buffer. */
  lemma TextChunkBoundaries(a: string, b: string)
    ensures Collapse([Text(a), Text(b)]) == Collapse([Text(a + b)])
  {
    EncodeStringAppend(a, b);
    assert ChunksBytes([Text(a), Text(b)]) == [EncodeString(a)] + [EncodeString(b)];
    ConcatAppend([EncodeString(a)], [EncodeString(b)]);
    SingleConcat(EncodeString(a));
    SingleConcat(EncodeString(b));
    SingleConcat(EncodeString(a + b));
  }
}
