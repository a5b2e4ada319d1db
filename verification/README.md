# S3 image-resize handler, modelled in Dafny

This project models an AWS Lambda function. It is invoked on an S3 "object created" notification, and it:

- reads the bucket name and object key from the first record;
- normalises the key: every `+` becomes a space, then `decodeURIComponent`;
- classifies the image type from the key's extension, accepting only `jpg` and `png` in any case;
- fetches the object and drains its body stream into one buffer;
- asks sharp to resize the buffer to 200 by 200;
- uploads the result to the same bucket under `resized/` + key, with content type `image/` + tag;
- logs a completion line.

A gate that yields nothing makes the handler return without throwing; the fetch and resize gates log an error line first. An upload failure is only logged, and the completion line is still written.

The modules follow the pieces of the program:

- `Wrappers`: the `Option` type, used for the source's `null` and for failures.
- `Utf8`: UTF-8 encoding and decoding of one code point, with overlong forms, surrogates and values beyond U+10FFFF rejected.
- `UriCodec`: `decodeURIComponent`, following the Decode operation behind the URI-handling functions of the ECMAScript language specification. It is paired with a percent-encoder; the round trip between them is proved.
- `ImageTypes`: `getImageType`.
- `Streams`: `streamToBuffer`.
- `Keys`:
  - `+` replacement and key normalisation
  - the destination key and the content type
  - a form-encoder that writes keys the way S3 notifications do; normalisation inverts it
- `Handler`: the handler as a pure function from a `World` and an `Event` to a `Run`. The `World` holds the answers of S3 and sharp. A `Run` is the ordered trace of requests and log lines, plus whether the handler returned or threw.

## Model

| member | source | states |
|---|---|---|
| Utf8.EncodeChar | index.js:16 | The UTF-8 form of a character that `Buffer.from` writes is 1 to 4 octets. It is one octet exactly for ASCII. Otherwise the lead octet's count of leading one bits is the length and every later octet is a continuation octet. |
| Utf8.DecodeChar | index.js:73-75 | The decoding step of `decodeURIComponent` accepts only groups of 1 to 4 octets. Exactly which groups it accepts is `DecodeCharIff`. |
| Utf8.DecodeCharIff | index.js:73-75 | In the decoder, a group of octets decodes to a character exactly when the group is that character's UTF-8 encoding. So overlong forms, surrogates and out-of-range values are refused. |
| Utf8.DecodedIsEncoding | index.js:73-75 | Whatever the decoder accepts is re-encoded to the same octets, so no two groups decode to one character. |
| Utf8.EncodeDecodes | index.js:73-75 | Decoding the encoding of any character gives the character back. |
| UriCodec.Decode | index.js:73-75 | `decodeURIComponent` never lengthens its input: every `%HH` triplet group stands for at most one character. |
| UriCodec.DecodeEscape | index.js:73-75 | Percent-encoding any text, keeping any set of characters that excludes `%`, then decoding gives the text back. |
| UriCodec.DecodeEncodeComponent | index.js:73-75 | `decodeURIComponent(encodeURIComponent(s)) == s` for every string. |
| UriCodec.DecodeWithoutPercent | index.js:73-75 | Text without `%` is decoded to itself. |
| UriCodec.DecodePlainPrefix | index.js:73-75 | A prefix without `%` is copied in front of whatever the rest decodes to, and the whole fails exactly when the rest fails. |
| UriCodec.DecodeBadTriplet | index.js:73-75 | A `%` not followed by two hex digits is a `URIError`, wherever it stands after text without `%`. |
| UriCodec.DecodeBadLead | index.js:73-75 | Where a character starts, after text without `%`, a triplet whose octet is a continuation octet, or has more than four leading one bits, is a `URIError`. |
| UriCodec.DecodeBadGroup | index.js:73-75 | After text without `%`, a lead octet for `n` octets not followed by `n - 1` triplets that form one valid UTF-8 code point is a `URIError`. |
| UriCodec.MalformedTriplets | index.js:73-75 | `%4` and `%ZZ` are `URIError`s. |
| UriCodec.StrayContinuation | index.js:73-75 | `%80` is a `URIError`. |
| UriCodec.OverlongRefused | index.js:73-75 | The overlong `%C0%80` is a `URIError`. |
| UriCodec.SurrogateRefused | index.js:73-75 | The encoded surrogate `%ED%A0%80` is a `URIError`. |
| UriCodec.HexValueIgnoresCase | index.js:73-75 | A lower-case hex digit has the value of its capital. |
| UriCodec.DecodeAsciiTriplet | index.js:73-75 | A triplet for an octet below 0x80, with hex digits in either case, decodes to that character, and decoding carries on after it. |
| UriCodec.LowerCaseExample | index.js:73-75 | `%4a` and `%4A` both decode to `J`. |
| UriCodec.DecodeEscapeChar | index.js:73-75 | The escape of one character decodes to that character and consumes exactly its escape. |
| UriCodec.ReadOctetsOfPercent | index.js:73-75 | The `%HH` triplets written for a group of octets are read back as that group. |
| UriCodec.PercentOctetsNoPlus | index.js:73-75 | A `%HH` escape never contains `+`, so the `+` replacement leaves escapes alone. |
| ImageTypes.LastDot | index.js:23 | Where the pattern `/\.([^.]*)$/` anchors: no position exactly when the key has no `.`, otherwise the position of the last `.`. |
| ImageTypes.Extension | index.js:23-24 | There is no match exactly when the key has no `.`. Otherwise the capture ends the key, directly after a `.`, and holds no `.`. |
| ImageTypes.ExtensionIff | index.js:23-24 | The match captures `ext` exactly when the key ends in `.` followed by `ext` and `ext` has no `.`. |
| ImageTypes.GetImageType | index.js:22-30 | A key without `.` gives null. An accepted key ends in `.` followed by three characters that lower-case to the tag returned. The exact condition is `GetImageTypeIff`. |
| ImageTypes.GetImageTypeIff | index.js:22-30 | `getImageType` returns `jpg` or `png` exactly when the key ends in `.` and that tag in any mix of cases. |
| ImageTypes.AcceptedEndsWithTag | index.js:23-29 | An accepted key ends in `.` and its tag, in some mix of cases. |
| ImageTypes.TagEndingAccepted | index.js:23-29 | A key ending in `.` and a tag in any mix of cases is accepted as that tag. |
| ImageTypes.ToLower | index.js:28 | The ASCII fold that stands for `toLowerCase` keeps the length; which characters it folds is `ToLowerFolds`. |
| ImageTypes.ToLowerFolds | index.js:28 | Each capital `A` to `Z` becomes its small letter, and every other character is kept. Only ASCII letters are folded; see the `ImageTypes.ToLower` line under "## Left out". |
| ImageTypes.TagIsLowerCase | index.js:28-29 | Every accepted result is `jpg` or `png`, already in lower case. |
| ImageTypes.NoDotUnsupported | index.js:23-26 | A key without `.` is unsupported. |
| ImageTypes.TrailingDotUnsupported | index.js:23-29 | A key ending in `.` has an empty extension and is unsupported. |
| ImageTypes.SlashAfterLastDotUnsupported | index.js:23-29 | Path text after the last `.`, as in `a.b/c`, stays in the extension, so such a key is unsupported. |
| ImageTypes.ClassifyOwnTag | index.js:28-29 | Classifying `prefix.` + a result gives that result back, so classification is idempotent on its own output. |
| ImageTypes.UpperCaseAccepted | index.js:28-29 | `X.JPG` is a `jpg` and `X.Png` is a `png`. |
| ImageTypes.UnsupportedExtension | index.js:28-29 | A captured extension that lower-cases to neither tag gives null. |
| ImageTypes.OtherExtensionsRejected | index.js:29 | `X.jpeg` and `X.gif` are unsupported. |
| Streams.StreamToBuffer | index.js:13-19 | The buffer is all chunks, text ones as UTF-8, concatenated in arrival order. Its length is the sum of the chunk lengths, zero chunks give an empty buffer, and chunk `j` sits whole right after chunks `0..j-1`. |
| Streams.Concat | index.js:18 | `Buffer.concat` gives a buffer whose length is the sum of the parts' lengths. Where each part sits is `ConcatAt`. |
| Streams.Collapse | index.js:13-19 | The drained buffer has the summed length of the chunks' bytes. Every chunk sits whole in it, right after the chunks before it. |
| Streams.ConcatPlaced | index.js:18 | Every part of a concatenation sits whole right after the parts before it. |
| Streams.ConcatAt | index.js:18 | In a concatenation, buffer `j` appears whole at the offset equal to the total length of the buffers before it. |
| Streams.ConcatAppend | index.js:18 | Concatenation distributes over appending lists of buffers. |
| Streams.CollapseAppend | index.js:13-19 | Draining two streams one after the other gives their buffers in order. |
| Streams.TextChunkBoundaries | index.js:16-18 | Cutting a text into chunks between two characters does not change the buffer. |
| Streams.EncodeString | index.js:16 | `Buffer.from` writes at least one octet per character. Its octets read back as the text (`EncodeStringDecodes`), and it distributes over concatenation (`EncodeStringAppend`). |
| Streams.EncodeStringDecodes | index.js:16 | The octets `Buffer.from` writes for a text read back, group by group, as exactly that text. |
| Streams.ChunkBytes | index.js:16 | A text chunk becomes at least one octet per character, and a binary chunk passes through unchanged. |
| Streams.TextChunkReadsBack | index.js:16 | A text chunk's octets read back as exactly its text. |
| Streams.EncodeStringAppend | index.js:16 | The UTF-8 encoding of a concatenation is the concatenation of the encodings. |
| Keys.ReplacePlus | index.js:74 | `replace(/\+/g, ' ')` keeps the length, leaves no `+`, turns every `+` into a space and keeps every other character in place. |
| Keys.DestinationKey | index.js:59 | The destination key is `resized/` followed by the whole source key. |
| Keys.DestinationKeyInjective | index.js:59 | Two source keys share a destination key exactly when they are equal. |
| Keys.ContentType | index.js:93 | The content type is `image/jpg` or `image/png`, ending in the type tag. |
| Keys.NormalisePlainKey | index.js:73-75 | A key with neither `+` nor `%` is used unchanged. |
| Keys.NormaliseKey | index.js:73-75 | The normalised key is never longer than the raw key. With no `%` in the raw key, normalising only turns `+` into spaces. |
| Keys.NormaliseExample | index.js:73-75 | `photos/a+b.png` is normalised to `photos/a b.png`, and its resized copy goes to `resized/photos/a b.png`. |
| Keys.EscapedPlusSurvives | index.js:73-75 | Because `+` is replaced before decoding, `a%2Bb+c` becomes `a+b c`: an escaped plus survives as a literal `+`. |
| Keys.OtherOrderDiffers | index.js:73-75 | Decoding first and replacing after would turn `a%2Bb+c` into `a b c`, so the order is observable. |
| Keys.DecodeEscapedPlus | index.js:73-75 | `%2B` between two texts without `%` decodes to a literal `+`. |
| Keys.ReplacePlusAround | index.js:74 | The first `+` of a text becomes a space and the rest is replaced in turn. |
| Keys.ReplacePlusAppend | index.js:74 | `+` replacement distributes over concatenation. |
| Keys.ReplacePlusFormEncode | index.js:74 | Replacing `+` in a form-encoded key gives the percent-encoding that keeps spaces literal. |
| Keys.NormaliseFormEncode | index.js:73-75 | Normalising a key written by the form-encoder gives the original key back, for any text, whatever literal set the encoder keeps, as long as that set excludes `%` and `+`. |
| Handler.Classify | index.js:22-30 | The gate yields what `getImageType` returns. It logs the "could not determine" line exactly when the key has no `.`, and logs nothing otherwise. |
| Handler.FetchImage | index.js:33-42 | When the store answers, `fetchImage` yields the drained body of that answer after one request for the given bucket and key. When the store fails, it yields nothing, and the request is followed by exactly one error line. |
| Handler.ResizeImage | index.js:45-52 | `resizeImage` asks for one `width` by `width` resize of the buffer and yields sharp's answer. Exactly one error line follows, and only when sharp fails. |
| Handler.UploadImage | index.js:55-67 | `uploadImage` puts once, to the given bucket under the destination key with the given content type. Exactly one error line follows, and only when the put fails. |
| Handler.Handle | index.js:70-99 | A thrown handler has done nothing. It throws `TypeError` exactly when there is no record. |
| Handler.HandleTargets | index.js:86-93 | Whatever S3 and sharp answer, every resize asked for is 200 by 200, and every upload goes to the source bucket under `resized/`. |
| Handler.HandleFirstRecordOnly | index.js:72-74 | Records after the first are ignored. |
| Handler.HandleBadKey | index.js:73-75 | A malformed escape makes the handler throw `URIError` before any effect. |
| Handler.HandleUnsupportedType | index.js:78-79 | An unsupported type returns with no fetch, resize, upload or completion line. It logs only when the key has no `.`. |
| Handler.HandleFetchFailure | index.js:82-83 | A failed fetch leaves exactly its request and an error line: no resize, no upload, no completion line. |
| Handler.HandleResizeFailure | index.js:89-90 | A failed resize returns with no upload and no completion line. |
| Handler.HandleEmptyBody | index.js:82-90 | An empty but fetched body is still handed to the resizer. |
| Handler.HandleResized | index.js:86-98 | Once resizing succeeds, the exact trace is: the request, the 200 by 200 resize, one put to the source bucket under `resized/` + key with `image/` + tag, an error line only if the put fails, and then the completion line naming `bucket/key` and `bucket/resized/key`. |
| Handler.ResizedTrace | index.js:93-98 | Past the resize, the trace is the put to `resized/` + key with `image/` + tag, then an error line only if the put fails, then the completion line. |
| Handler.HandleReachesUpload | index.js:78-98 | When every gate up to the resize passes, the trace is the request, the resize, the upload's effects and the completion line. |
| Handler.UploadTarget | index.js:55-67 | The upload targets the source bucket under `resized/` + key with content type `image/` + tag. |
| Handler.Completion | index.js:96-98 | The completion line names the source location `bucket/key` and the destination `bucket/resized/key`. |
| Handler.HandleUploadFailure | index.js:63-98 | A failed upload is swallowed: once the resize succeeds, the handler returns normally and logs the completion line whether or not the put fails, and a failed put adds its error line. |
| Handler.HandleUploadsAtMostOnce | index.js:78-98 | Whatever S3 and sharp answer, one invocation uploads at most once, and logs completion exactly as often as it uploads. |
| Handler.HandleExample | index.js:70-99 | Bucket `bkt` and key `img.jpg`, with a successful fetch, resize and upload, give exactly: the get, the 200 by 200 resize, one put of the output to `bkt` under `resized/img.jpg` with `image/jpg`, and the completion line for `bkt/img.jpg` and `bkt/resized/img.jpg`. |

## Left out

- The S3 client, its region, and `GetObjectCommand`/`PutObjectCommand` (index.js:2-10, 36, 63) are network I/O. Their answers are the `World`'s `getObject` and `putObject` parameters. A failed request and a body stream that fails part-way are the same `None`.
- sharp's decode, resize and encode (index.js:47) work on image data. The model records the requested size and treats the output as the `World`'s `resize` answer. Nothing is claimed about the pixels or the output's dimensions.
- `async`/`await` and async iteration are modelled as plain sequential composition, because nothing runs concurrently within an invocation.
- Log texts are reduced to one effect per log call. The completion line keeps the two locations it names.
- Strings are sequences of Unicode scalar values, not of UTF-16 code units. So lone surrogates, which `Buffer.from` replaces by EF BF BD, cannot occur, and a supplementary character has length one.
- ImageTypes.ToLower folds only the ASCII letters `A` to `Z`, keeps every other character, and so keeps the length. JavaScript's `toLowerCase` applies full case mappings, which can change the length: `İ` (U+0130) becomes `i` followed by a combining dot.
- ImageTypes.GetImageType lower-cases only ASCII letters. `toLowerCase` also folds other letters, but no other character folds to a letter of `jpg` or `png`, so acceptance is unchanged.
- Streams.TextChunkBoundaries: it covers only cuts between characters. A text chunk cannot end between the two UTF-16 halves of a supplementary character, because strings here are scalar values. In the source such a cut makes `Buffer.from` write EF BF BD for each half instead of the character's four octets.
- The event's shape is reduced to the bucket and key strings of each record; only the first record is read.
- UriCodec.Decode: its own contract states only the length bound. The lemmas fix its results on what the percent-encoder writes, on text without `%`, and on single ASCII triplets in either case. They fix that it fails when the first `%` starts a malformed escape: `DecodeBadTriplet`, `DecodeBadLead` and `DecodeBadGroup`. A malformed escape after an earlier well-formed one, as in `%c3%a9%80`, is not covered by these lemmas, although the model fails there as the source does. No lemma states the converse, that every failure comes from such an escape, nor a closed form for arbitrary mixed input.
- Handler.Handle models the `URIError` that `decodeURIComponent` throws, and the `TypeError` an empty `Records` list throws, as a `Threw` outcome with an empty trace. The source catches neither.

## Notes on the code

- Only a key with no `.` at all is logged as undeterminable. A key with an unsupported extension returns without any log line; see `Handler.HandleUnsupportedType`.
- `+` is replaced before percent-decoding, so `%2B` survives as a literal `+`; see `Keys.EscapedPlusSurvives` and `Keys.OtherOrderDiffers`.
- A malformed escape in the key and a notification without records both make the handler throw; see `Handler.HandleBadKey` and `Handler.Handle`.
