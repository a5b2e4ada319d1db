/**
 The Lambda `handler`: take the first notification record, normalise its
 key, classify the image type, fetch the object, resize it to 200 by 200,
 upload the result and log completion. Each gate that yields nothing makes
 the handler return without throwing (the fetch and resize gates log an
 error line first); the upload's failure is logged and ignored.

 The object store and the image library are the `World`: the answers they
 give are parameters, and what the handler asks of them is recorded, in
 order, as a trace of effects.
 */
module Handler {
  import opened Wrappers
  import opened Utf8
  import opened Streams
  import opened ImageTypes
  import opened Keys

  /** The two strings the handler reads from a notification record. */
  datatype Record = Record(bucket: string, key: string)

  datatype Event = Event(records: seq<Record>)

  /** The answers of the outside world: the body stream of a `GetObject`
      (`None` when the request or the stream fails), the output of sharp's
      decode, resize and encode (`None` when it throws), and whether a
      `PutObject` succeeds. */
  datatype World = World(
    getObject: (string, string) -> Option<seq<Chunk>>,
    resize: (seq<byte>, int, int) -> Option<seq<byte>>,
    putObject: (string, string, seq<byte>, string) -> bool)

  /** What one invocation does, in order: requests to the store and the
      image library, and the lines it logs. */
  datatype Effect =
    | UnknownTypeLog
    | GetObject(bucket: string, key: string)
    | FetchErrorLog
    | Resize(input: seq<byte>, width: int, height: int)
    | ResizeErrorLog
    | PutObject(bucket: string, key: string, body: seq<byte>, contentType: string)
    | UploadErrorLog
    | CompletionLog(source: string, destination: string)

  /** The exceptions that escape the handler: a missing first record
      (`TypeError`) and a malformed escape in the key (`URIError`). */
  datatype Error = TypeError | URIError

  datatype Outcome = Returned | Threw(error: Error)

  datatype Run = Run(trace: seq<Effect>, outcome: Outcome)

  /** A gate's answer (`None` for the source's `null`) and its effects. */
  datatype Step<T> = Step(result: Option<T>, trace: seq<Effect>)

  /** The resize width, `parseInt('200')`. */
  const Width: int := 200

  predicate IsGetObject(e: Effect) { e.GetObject? }
  predicate IsResize(e: Effect) { e.Resize? }
  predicate IsPutObject(e: Effect) { e.PutObject? }
  predicate IsCompletionLog(e: Effect) { e.CompletionLog? }

  /** The number of effects of a trace that `p` selects. */
  function Count(trace: seq<Effect>, p: Effect -> bool): (n: nat)
    ensures n <= |trace|
    ensures n == 0 <==> forall k :: 0 <= k < |trace| ==> !p(trace[k])
  {
    if |trace| == 0 then 0
    else (if p(trace[0]) then 1 else 0) + Count(trace[1..], p)
  }

  lemma {:induction false} CountAppend(a: seq<Effect>, b: seq<Effect>, p: Effect -> bool)
    ensures Count(a + b, p) == Count(a, p) + Count(b, p)
    decreases |a|
  {
    if |a| == 0 {
      assert a + b == b;
    } else {
      assert (a + b)[1..] == a[1..] + b;
      CountAppend(a[1..], b, p);
    }
  }

  /** `getImageType`, which logs only when the key has no `.` at all. */
  function Classify(key: string): (s: Step<ImageType>)
    ensures s.result == GetImageType(key)
    ensures s.trace == (if '.' in key then [] else [UnknownTypeLog])
  {
    Step(GetImageType(key), if Extension(key).None? then [UnknownTypeLog] else [])
  }

  /** `fetchImage`: one `GetObject`, then the drained body, or a logged error. */
  function FetchImage(world: World, bucket: string, key: string): (s: Step<seq<byte>>)
    ensures world.getObject(bucket, key).None? ==> s == Step(None, [GetObject(bucket, key), FetchErrorLog])
    ensures world.getObject(bucket, key).Some? ==>
              s == Step(Some(Collapse(world.getObject(bucket, key).value)), [GetObject(bucket, key)])
  {
    match world.getObject(bucket, key)
    case None => Step(None, [GetObject(bucket, key), FetchErrorLog])
    case Some(stream) => Step(Some(Collapse(stream)), [GetObject(bucket, key)])
  }

  /** `resizeImage`: sharp resizes to `width` by `width`. */
  function ResizeImage(world: World, buffer: seq<byte>, width: int): (s: Step<seq<byte>>)
    ensures s.result == world.resize(buffer, width, width)
    ensures s.trace == [Resize(buffer, width, width)] + (if s.result.None? then [ResizeErrorLog] else [])
  {
    match world.resize(buffer, width, width)
    case None => Step(None, [Resize(buffer, width, width), ResizeErrorLog])
    case Some(out) => Step(Some(out), [Resize(buffer, width, width)])
  }

  /** `uploadImage`: one `PutObject` to the same bucket under the
      destination key; a failure is only logged. */
  function UploadImage(world: World, bucket: string, key: string, buffer: seq<byte>, contentType: string): (trace: seq<Effect>)
    ensures |trace| > 0 && trace[0] == PutObject(bucket, DestinationKey(key), buffer, contentType)
    ensures trace[1..] == (if world.putObject(bucket, DestinationKey(key), buffer, contentType) then [] else [UploadErrorLog])
  {
    var put := PutObject(bucket, DestinationKey(key), buffer, contentType);
    if world.putObject(bucket, DestinationKey(key), buffer, contentType) then [put] else [put, UploadErrorLog]
  }

  /** The completion line names the source and the destination location. */
  function Completion(bucket: string, key: string): (e: Effect)
    ensures e == CompletionLog(bucket + "/" + key, bucket + "/resized/" + key)
  {
    assert bucket + "/" + DestinationKey(key) == bucket + "/resized/" + key;
    CompletionLog(bucket + "/" + key, bucket + "/" + DestinationKey(key))
  }

  /** `handler(event)`. */
  function Handle(world: World, event: Event): (run: Run)
    ensures run.outcome.Threw? ==> run.trace == []
    ensures run.outcome == Threw(TypeError) <==> |event.records| == 0
  {
    if |event.records| == 0 then Run([], Threw(TypeError))
    else
      var record := event.records[0];
      match NormaliseKey(record.key)
      case None => Run([], Threw(URIError))
      case Some(key) =>
        var classified := Classify(key);
        match classified.result
        case None => Run(classified.trace, Returned)
        case Some(imageType) =>
          var fetched := FetchImage(world, record.bucket, key);
          match fetched.result
          case None => Run(classified.trace + fetched.trace, Returned)
          case Some(original) =>
            var resized := ResizeImage(world, original, Width);
            match resized.result
            case None => Run(classified.trace + fetched.trace + resized.trace, Returned)
            case Some(output) =>
              var uploaded := UploadImage(world, record.bucket, key, output, ContentType(imageType));
              Run(classified.trace + fetched.trace + resized.trace + uploaded + [Completion(record.bucket, key)], Returned)
  }

  /** Every resize in `trace` is 200 by 200, and every upload goes to
      `bucket` under `resized/`. */
  predicate WellTargeted(trace: seq<Effect>, bucket: string) {
    && (forall e :: e in trace && e.Resize? ==> e.width == Width && e.height == Width)
    && (forall e :: e in trace && e.PutObject? ==>
          e.bucket == bucket && |e.key| >= |DestinationPrefix| && e.key[..|DestinationPrefix|] == DestinationPrefix)
  }

  /** Whatever the world answers, every resize asked for is 200 by 200, and
      every upload goes to the source bucket under `resized/`. */
  lemma HandleTargets(world: World, event: Event)
    ensures |Handle(world, event).trace| > 0 ==>
              |event.records| > 0 && WellTargeted(Handle(world, event).trace, event.records[0].bucket)
  {
    if |event.records| > 0 && NormaliseKey(event.records[0].key).Some? {
      var key := NormaliseKey(event.records[0].key).value;
      var bucket := event.records[0].bucket;
      if GetImageType(key).None? {
        HandleUnsupportedType(world, event, key);
      } else if world.getObject(bucket, key).None? {
        HandleFetchFailure(world, event, key);
      } else {
        var stream := world.getObject(bucket, key).value;
        if world.resize(Collapse(stream), Width, Width).None? {
          HandleResizeFailure(world, event, key, stream);
        } else {
          var output := world.resize(Collapse(stream), Width, Width).value;
          var t := GetImageType(key).value;
          HandleResized(world, event, key, t, stream, output);
          ResizedTargets(bucket, key, Collapse(stream), output, "image/" + t.Tag(),
                         world.putObject(bucket, "resized/" + key, output, "image/" + t.Tag()));
        }
      }
    }
  }

  /** The trace of an invocation that got past the resize is well targeted. */
  lemma ResizedTargets(bucket: string, key: string, input: seq<byte>, output: seq<byte>, contentType: string, ok: bool)
    ensures WellTargeted([GetObject(bucket, key), Resize(input, Width, Width), PutObject(bucket, "resized/" + key, output, contentType)]
                         + (if ok then [] else [UploadErrorLog])
                         + [CompletionLog(bucket + "/" + key, bucket + "/resized/" + key)], bucket)
  {
    assert ("resized/" + key)[..|DestinationPrefix|] == DestinationPrefix;
  }

  /** The first record exists and its key normalises to `key`. */
  predicate KeyIs(event: Event, key: string) {
    |event.records| > 0 && NormaliseKey(event.records[0].key) == Some(key)
  }

  /** Only the first record is looked at. */
  lemma HandleFirstRecordOnly(world: World, first: Record, rest: seq<Record>)
    ensures Handle(world, Event([first] + rest)) == Handle(world, Event([first]))
  {
    assert ([first] + rest)[0] == first;
  }

  /** A malformed escape in the key escapes as a `URIError` before any effect. */
  lemma HandleBadKey(world: World, event: Event)
    requires |event.records| > 0 && NormaliseKey(event.records[0].key).None?
    ensures Handle(world, event) == Run([], Threw(URIError))
  {
  }

  /** An unsupported type ends the invocation before any request: no fetch,
      no resize, no upload, no completion line; only a key without `.` is
      logged. */
  lemma HandleUnsupportedType(world: World, event: Event, key: string)
    requires KeyIs(event, key) && GetImageType(key).None?
    ensures Handle(world, event).outcome == Returned
    ensures Handle(world, event).trace == (if '.' in key then [] else [UnknownTypeLog])
    ensures Count(Handle(world, event).trace, IsGetObject) == 0
    ensures Count(Handle(world, event).trace, IsResize) == 0
    ensures Count(Handle(world, event).trace, IsPutObject) == 0
    ensures Count(Handle(world, event).trace, IsCompletionLog) == 0
  {
  }

  /** A failed fetch ends the invocation after its one `GetObject`: no
      resize, no upload, no completion line. */
  lemma HandleFetchFailure(world: World, event: Event, key: string)
    requires KeyIs(event, key) && GetImageType(key).Some?
    requires world.getObject(event.records[0].bucket, key).None?
    ensures Handle(world, event) == Run([GetObject(event.records[0].bucket, key), FetchErrorLog], Returned)
    ensures Count(Handle(world, event).trace, IsResize) == 0
    ensures Count(Handle(world, event).trace, IsPutObject) == 0
    ensures Count(Handle(world, event).trace, IsCompletionLog) == 0
  {
    assert '.' in key by {
      ExtensionIff(key, key[LastDot(key).value + 1..]);
    }
  }

  /** A failed resize ends the invocation: no upload, no completion line. */
  lemma HandleResizeFailure(world: World, event: Event, key: string, stream: seq<Chunk>)
    requires KeyIs(event, key) && GetImageType(key).Some?
    requires world.getObject(event.records[0].bucket, key) == Some(stream)
    requires world.resize(Collapse(stream), Width, Width).None?
    ensures Handle(world, event).outcome == Returned
    ensures Handle(world, event).trace ==
              [GetObject(event.records[0].bucket, key), Resize(Collapse(stream), Width, Width), ResizeErrorLog]
    ensures Count(Handle(world, event).trace, IsPutObject) == 0
    ensures Count(Handle(world, event).trace, IsCompletionLog) == 0
  {
    var bucket := event.records[0].bucket;
    assert '.' in key;
    assert Classify(key).trace == [];
    assert FetchImage(world, bucket, key).result == Some(Collapse(stream));
    var trace := [GetObject(bucket, key), Resize(Collapse(stream), Width, Width), ResizeErrorLog];
    assert Handle(world, event).trace == [] + [GetObject(bucket, key)] + [Resize(Collapse(stream), Width, Width), ResizeErrorLog];
    assert forall k :: 0 <= k < |trace| ==> !IsPutObject(trace[k]) && !IsCompletionLog(trace[k]);
  }

  /** An empty body is still a buffer: it is handed to the resizer. */
  lemma HandleEmptyBody(world: World, event: Event, key: string, stream: seq<Chunk>)
    requires KeyIs(event, key) && GetImageType(key).Some?
    requires world.getObject(event.records[0].bucket, key) == Some(stream)
    requires Collapse(stream) == []
    ensures Resize([], Width, Width) in Handle(world, event).trace
  {
    assert '.' in key;
  }

  /** Past the resize, the invocation uploads once, to the source bucket,
      under `resized/` + the key, with content type `image/` + the tag, and
      then logs completion whether or not the upload succeeded. */
  lemma HandleResized(world: World, event: Event, key: string, t: ImageType, stream: seq<Chunk>, output: seq<byte>)
    requires KeyIs(event, key) && GetImageType(key) == Some(t)
    requires world.getObject(event.records[0].bucket, key) == Some(stream)
    requires world.resize(Collapse(stream), Width, Width) == Some(output)
    ensures var bucket := event.records[0].bucket;
            var put := PutObject(bucket, "resized/" + key, output, "image/" + t.Tag());
            var ok := world.putObject(bucket, "resized/" + key, output, "image/" + t.Tag());
            Handle(world, event) ==
              Run([GetObject(bucket, key), Resize(Collapse(stream), Width, Width), put]
                  + (if ok then [] else [UploadErrorLog])
                  + [CompletionLog(bucket + "/" + key, bucket + "/resized/" + key)],
                  Returned)
  {
    HandleReachesUpload(world, event, key, t, stream, output);
    ResizedTrace(world, event.records[0].bucket, key, t, Collapse(stream), output);
  }

  /** The effects from the request on, once the resize has succeeded. */
  lemma ResizedTrace(world: World, bucket: string, key: string, t: ImageType, input: seq<byte>, output: seq<byte>)
    ensures var put := PutObject(bucket, "resized/" + key, output, "image/" + t.Tag());
            var ok := world.putObject(bucket, "resized/" + key, output, "image/" + t.Tag());
            [GetObject(bucket, key), Resize(input, Width, Width)]
              + UploadImage(world, bucket, key, output, ContentType(t))
              + [Completion(bucket, key)]
            == [GetObject(bucket, key), Resize(input, Width, Width), put]
               + (if ok then [] else [UploadErrorLog])
               + [CompletionLog(bucket + "/" + key, bucket + "/resized/" + key)]
  {
    var head := [GetObject(bucket, key), Resize(input, Width, Width)];
    var put := PutObject(bucket, "resized/" + key, output, "image/" + t.Tag());
    var tail := if world.putObject(bucket, "resized/" + key, output, "image/" + t.Tag()) then [] else [UploadErrorLog];
    var done := CompletionLog(bucket + "/" + key, bucket + "/resized/" + key);
    UploadTarget(world, bucket, key, output, t);
    assert Completion(bucket, key) == done;
    TraceRegroup(head, [put], tail, [done]);
  }

  /** Regrouping the parts of a trace; kept apart to split the proof of `ResizedTrace`. */
  lemma TraceRegroup(a: seq<Effect>, b: seq<Effect>, c: seq<Effect>, d: seq<Effect>)
    ensures a + (b + c) + d == a + b + c + d
  {
  }

  /** The gates up to the upload all pass. */
  lemma HandleReachesUpload(world: World, event: Event, key: string, t: ImageType, stream: seq<Chunk>, output: seq<byte>)
    requires KeyIs(event, key) && GetImageType(key) == Some(t)
    requires world.getObject(event.records[0].bucket, key) == Some(stream)
    requires world.resize(Collapse(stream), Width, Width) == Some(output)
    ensures var bucket := event.records[0].bucket;
            Handle(world, event) ==
              Run([GetObject(bucket, key), Resize(Collapse(stream), Width, Width)]
                  + UploadImage(world, bucket, key, output, ContentType(t))
                  + [Completion(bucket, key)],
                  Returned)
  {
    var bucket := event.records[0].bucket;
    var g, r := GetObject(bucket, key), Resize(Collapse(stream), Width, Width);
    assert '.' in key;
    assert Classify(key) == Step(Some(t), []);
    assert FetchImage(world, bucket, key) == Step(Some(Collapse(stream)), [g]);
    assert ResizeImage(world, Collapse(stream), Width) == Step(Some(output), [r]);
    assert [] + [g] + [r] == [g, r];
  }

  /** The upload goes to the source bucket under `resized/` + the key with
      content type `image/` + the tag; its failure adds only a log line. */
  lemma UploadTarget(world: World, bucket: string, key: string, output: seq<byte>, t: ImageType)
    ensures UploadImage(world, bucket, key, output, ContentType(t)) ==
              [PutObject(bucket, "resized/" + key, output, "image/" + t.Tag())]
              + (if world.putObject(bucket, "resized/" + key, output, "image/" + t.Tag()) then [] else [UploadErrorLog])
  {
    assert DestinationKey(key) == "resized/" + key;
    assert ContentType(t) == "image/" + t.Tag();
  }

  /** A failed upload is swallowed: whether or not the put succeeds, the
      completion line naming `bucket/key` and `bucket/resized/key` is logged
      and the handler returns normally; a failed put adds its error line. */
  lemma HandleUploadFailure(world: World, event: Event, key: string, t: ImageType, stream: seq<Chunk>, output: seq<byte>)
    requires KeyIs(event, key) && GetImageType(key) == Some(t)
    requires world.getObject(event.records[0].bucket, key) == Some(stream)
    requires world.resize(Collapse(stream), Width, Width) == Some(output)
    ensures Handle(world, event).outcome == Returned
    ensures !world.putObject(event.records[0].bucket, DestinationKey(key), output, ContentType(t))
            ==> UploadErrorLog in Handle(world, event).trace
    ensures CompletionLog(event.records[0].bucket + "/" + key, event.records[0].bucket + "/resized/" + key)
              in Handle(world, event).trace
  {
    HandleResized(world, event, key, t, stream, output);
  }

  /** Whatever the world answers, there is at most one upload, and a
      completion line exactly when there is an upload. */
  lemma HandleUploadsAtMostOnce(world: World, event: Event)
    ensures Count(Handle(world, event).trace, IsPutObject) <= 1
    ensures Count(Handle(world, event).trace, IsPutObject) == Count(Handle(world, event).trace, IsCompletionLog)
  {
    var run := Handle(world, event);
    if |event.records| > 0 && NormaliseKey(event.records[0].key).Some? {
      var key := NormaliseKey(event.records[0].key).value;
      var bucket := event.records[0].bucket;
      if GetImageType(key).Some? {
        var t := GetImageType(key).value;
        if world.getObject(bucket, key).None? {
          HandleFetchFailure(world, event, key);
        } else {
          var stream := world.getObject(bucket, key).value;
          if world.resize(Collapse(stream), Width, Width).None? {
            HandleResizeFailure(world, event, key, stream);
          } else {
            var output := world.resize(Collapse(stream), Width, Width).value;
            HandleResized(world, event, key, t, stream, output);
            ResizedTraceCounts(
              [GetObject(bucket, key), Resize(Collapse(stream), Width, Width),
               PutObject(bucket, "resized/" + key, output, "image/" + t.Tag())],
              world.putObject(bucket, "resized/" + key, output, "image/" + t.Tag()),
              CompletionLog(bucket + "/" + key, bucket + "/resized/" + key));
          }
        }
      } else {
        HandleUnsupportedType(world, event, key);
      }
    }
  }

  /** A trace of a request, a resize and an upload, an optional error
      line and a completion line has one upload and one completion line. */
  lemma ResizedTraceCounts(head: seq<Effect>, ok: bool, done: Effect)
    requires |head| == 3 && head[0].GetObject? && head[1].Resize? && head[2].PutObject?
    requires done.CompletionLog?
    ensures var trace := head + (if ok then [] else [UploadErrorLog]) + [done];
            Count(trace, IsPutObject) == 1 && Count(trace, IsCompletionLog) == 1
  {
    var tail := if ok then [] else [UploadErrorLog];
    CountAppend(head + tail, [done], IsPutObject);
    CountAppend(head, tail, IsPutObject);
    CountAppend(head + tail, [done], IsCompletionLog);
    CountAppend(head, tail, IsCompletionLog);
    assert head[1..][1..][1..] == [];
  }

  /** The literal strings of `HandleExample`; kept apart to split its proof. */
  lemma ExampleStrings(bucket: string, key: string)
    requires bucket == "bkt" && key == "img.jpg"
    ensures "resized/" + key == "resized/img.jpg"
    ensures "image/" + Jpg.Tag() == "image/jpg"
    ensures bucket + "/" + key == "bkt/img.jpg"
    ensures bucket + "/resized/" + key == "bkt/resized/img.jpg"
  {
  }

  /** The key of `HandleExample` decodes to itself and is a `jpg`. */
  lemma ExampleKey(key: string)
    requires key == "img.jpg"
    ensures NormaliseKey(key) == Some(key) && GetImageType(key) == Some(Jpg)
  {
    NormalisePlainKey(key);
    ClassifyOwnTag("img", Jpg);
    assert "img" + "." + Jpg.Tag() == key;
  }

  /** The end-to-end case: bucket `bkt`, key `img.jpg`, a successful fetch,
      resize and upload. */
  lemma HandleExample(world: World, event: Event, stream: seq<Chunk>, output: seq<byte>)
    requires event.records == [Record("bkt", "img.jpg")]
    requires world.getObject("bkt", "img.jpg") == Some(stream)
    requires world.resize(Collapse(stream), 200, 200) == Some(output)
    requires world.putObject("bkt", "resized/img.jpg", output, "image/jpg")
    ensures Handle(world, event) ==
              Run([GetObject("bkt", "img.jpg"), Resize(Collapse(stream), 200, 200),
                   PutObject("bkt", "resized/img.jpg", output, "image/jpg"),
                   CompletionLog("bkt/img.jpg", "bkt/resized/img.jpg")],
                  Returned)
  {
    var bucket, key := event.records[0].bucket, event.records[0].key;
    ExampleStrings(bucket, key);
    ExampleKey(key);
    HandleResized(world, event, key, Jpg, stream, output);
    ExampleTrace(bucket, key, stream, output);
  }

  /** The trace of `HandleExample` with its strings spelled out; kept apart to split its proof. */
  lemma ExampleTrace(bucket: string, key: string, stream: seq<Chunk>, output: seq<byte>)
    requires bucket == "bkt" && key == "img.jpg"
    ensures [GetObject(bucket, key), Resize(Collapse(stream), Width, Width),
             PutObject(bucket, "resized/" + key, output, "image/" + Jpg.Tag())]
            + [] + [CompletionLog(bucket + "/" + key, bucket + "/resized/" + key)]
            == [GetObject("bkt", "img.jpg"), Resize(Collapse(stream), 200, 200),
                PutObject("bkt", "resized/img.jpg", output, "image/jpg"),
                CompletionLog("bkt/img.jpg", "bkt/resized/img.jpg")]
  {
    ExampleStrings(bucket, key);
  }
}
