/**
 * The wire protocol between client and server (src/message.rs).
 *
 * A frame is a 4-byte big-endian length followed by that many payload
 * bytes; the payload's first byte is a tag naming the variant and the rest
 * is the variant's body: text as its UTF-8 bytes, an identifier as 8
 * big-endian bytes, a list of identifiers as their 8-byte forms end to end.
 *
 * A byte stream is a `seq<Byte>`; decoding gives the value together with
 * the bytes it did not consume.
 */
module Message {
  import opened Wrappers
  import opened Bytes
  import opened Utf8

  /** A request from the client to the server. */
  datatype Request =
    | Publish(doc: Text)
    | Search(word: Text)
    | Retrieve(id: Usize)

  /** A response from the server to the client. */
  datatype Response =
    | PublishSuccess(index: Usize)
    | SearchSuccess(indices: seq<Usize>)
    | RetrieveSuccess(doc: Text)
    | Failure

  const PUBLISH_TAG: Byte := 0
  const SEARCH_TAG: Byte := 1
  const RETRIEVE_TAG: Byte := 2

  const PUBLISH_SUCCESS_TAG: Byte := 0
  const SEARCH_SUCCESS_TAG: Byte := 1
  const RETRIEVE_SUCCESS_TAG: Byte := 2
  const FAILURE_TAG: Byte := 3

  /**
   * Why a stream decodes to no value. The source returns a bare `None` in
   * every one of these cases; the reason is carried only to state them apart.
   */
  datatype Reason =
    | Truncated           // the stream ends inside the header or the payload
    | EmptyPayload        // the declared length is 0 (only the corrected decoders)
    | UnknownTag(tag: Byte)
    | ShortId             // fewer than ID_WIDTH bytes follow an identifier's tag
    | InvalidUtf8         // a text body is not valid UTF-8

  /**
   * What decoding a stream produces: a value and the unconsumed rest of the
   * stream, no value (`None` in the source), or a panic of the decoding
   * thread (an out-of-bounds index).
   */
  datatype Outcome<T> =
    | Decoded(value: T, rest: seq<Byte>)
    | Rejected(reason: Reason)
    | Panicked

  // ---------------------------------------------------------------- frames

  /** `(n as u32).to_be_bytes()`: the length prefix, truncated to 32 bits. */
  function LengthPrefix(n: nat): (h: seq<Byte>)
    ensures |h| == LENGTH_WIDTH
    ensures FromBigEndian(h) == n % U32_LIMIT
  {
    WidthLimits();
    FromToBigEndian(n % U32_LIMIT, LENGTH_WIDTH);
    ToBigEndian(n % U32_LIMIT, LENGTH_WIDTH)
  }

  /** A payload with its length prefix in front. */
  function Framed(payload: seq<Byte>): (message: seq<Byte>)
    ensures |message| == LENGTH_WIDTH + |payload|
    ensures message[LENGTH_WIDTH..] == payload
    ensures FromBigEndian(message[..LENGTH_WIDTH]) == |payload| % U32_LIMIT
  {
    var header := LengthPrefix(|payload|);
    assert (header + payload)[..LENGTH_WIDTH] == header;
    header + payload
  }

  /** A frame's payload and the bytes of the stream after it. */
  datatype Frame = Frame(payload: seq<Byte>, rest: seq<Byte>)

  /** The payload length a stream's header declares. */
  function DeclaredLength(stream: seq<Byte>): nat
    requires |stream| >= LENGTH_WIDTH
  {
    FromBigEndian(stream[..LENGTH_WIDTH])
  }

  /**
   * The two `read_exact` calls: the 4-byte header, then exactly the declared
   * number of payload bytes; `None` when the stream ends before either is
   * complete.
   */
  function ReadFrame(stream: seq<Byte>): (f: Option<Frame>)
    ensures f.Some? <==> |stream| >= LENGTH_WIDTH && |stream| - LENGTH_WIDTH >= DeclaredLength(stream)
    ensures f.Some? ==> |f.value.payload| == DeclaredLength(stream)
    ensures f.Some? ==> stream == stream[..LENGTH_WIDTH] + f.value.payload + f.value.rest
  {
    if |stream| < LENGTH_WIDTH then None
    else
      var length := FromBigEndian(stream[..LENGTH_WIDTH]);
      if |stream| - LENGTH_WIDTH < length then None
      else
        var payload := stream[LENGTH_WIDTH..LENGTH_WIDTH + length];
        var rest := stream[LENGTH_WIDTH + length..];
        assert stream == stream[..LENGTH_WIDTH] + payload + rest;
        Some(Frame(payload, rest))
  }

  /** Reading a frame back from a framed payload gives the payload and what followed it. */
  lemma ReadFramed(payload: seq<Byte>, rest: seq<Byte>)
    requires |payload| < U32_LIMIT
    ensures ReadFrame(Framed(payload) + rest) == Some(Frame(payload, rest))
  {
    var stream := Framed(payload) + rest;
    assert stream[..LENGTH_WIDTH] == Framed(payload)[..LENGTH_WIDTH];
    assert stream[LENGTH_WIDTH..LENGTH_WIDTH + |payload|] == payload;
    assert stream[LENGTH_WIDTH + |payload|..] == rest;
  }

  /** Every stream a frame is read from is a framed payload followed by the rest. */
  lemma FramedReadFrame(stream: seq<Byte>)
    requires ReadFrame(stream).Some?
    ensures |ReadFrame(stream).value.payload| < U32_LIMIT
    ensures stream == Framed(ReadFrame(stream).value.payload) + ReadFrame(stream).value.rest
  {
    var f := ReadFrame(stream).value;
    WidthLimits();
    ToFromBigEndian(stream[..LENGTH_WIDTH]);
    assert LengthPrefix(|f.payload|) == stream[..LENGTH_WIDTH];
  }

  /**
   * A payload of 2^32 bytes or more is framed with its length mod 2^32, so
   * the reader takes a shorter, wrong frame: (for payloads under 2^33) the
   * first |payload| - 2^32 bytes, leaving the remainder in the stream.
   */
  lemma WrappedFrame(payload: seq<Byte>, rest: seq<Byte>)
    requires U32_LIMIT <= |payload| < 2 * U32_LIMIT
    ensures var cut := |payload| - U32_LIMIT;
      ReadFrame(Framed(payload) + rest) == Some(Frame(payload[..cut], payload[cut..] + rest))
  {
    var cut := |payload| - U32_LIMIT;
    var stream := Framed(payload) + rest;
    assert stream[..LENGTH_WIDTH] == Framed(payload)[..LENGTH_WIDTH];
    assert stream[LENGTH_WIDTH..LENGTH_WIDTH + cut] == payload[..cut];
    assert stream[LENGTH_WIDTH + cut..] == payload[cut..] + rest;
  }

  /**
   * Whatever its size, a framed payload is always read as some frame, one
   * whose length is the payload's length mod 2^32: empty exactly when the
   * payload's length is a multiple of 2^32.
   */
  lemma ReadFramedTruncated(payload: seq<Byte>, rest: seq<Byte>)
    ensures ReadFrame(Framed(payload) + rest).Some?
    ensures |ReadFrame(Framed(payload) + rest).value.payload| == |payload| % U32_LIMIT
  {
    var stream := Framed(payload) + rest;
    assert stream[..LENGTH_WIDTH] == Framed(payload)[..LENGTH_WIDTH];
  }

  // -------------------------------------------------------------- requests

  /** The tag byte a request is sent under. */
  function RequestTag(r: Request): Byte {
    match r
    case Publish(_) => PUBLISH_TAG
    case Search(_) => SEARCH_TAG
    case Retrieve(_) => RETRIEVE_TAG
  }

  /** The payload of a request's frame: its tag, then its body. */
  function RequestPayload(r: Request): seq<Byte> {
    match r
    case Publish(doc) => [PUBLISH_TAG] + doc
    case Search(word) => [SEARCH_TAG] + word
    case Retrieve(id) => [RETRIEVE_TAG] + IdBytes(id)
  }

  /**
   * `Request::to_bytes`. The frame starts with a 4-byte big-endian length
   * equal to the number of bytes after it whenever that number fits a `u32`,
   * and the tag comes next.
   */
  function EncodeRequest(r: Request): (message: seq<Byte>)
    ensures |message| > LENGTH_WIDTH && message[LENGTH_WIDTH] == RequestTag(r)
    ensures |message| - LENGTH_WIDTH < U32_LIMIT ==>
      FromBigEndian(message[..LENGTH_WIDTH]) == |message| - LENGTH_WIDTH
  {
    var payload := RequestPayload(r);
    assert payload[0] == RequestTag(r);
    Framed(payload)
  }

  /**
   * `Request::from_bytes`. A stream too short for its header or its declared
   * payload is `Truncated`; a declared length of 0 panics; a value, when
   * there is one, leaves exactly the bytes after the frame unconsumed.
   */
  function DecodeRequest(stream: seq<Byte>): (out: Outcome<Request>)
    ensures ReadFrame(stream).None? ==> out == Rejected(Truncated)
    ensures out.Panicked? <==> ReadFrame(stream).Some? && ReadFrame(stream).value.payload == []
    ensures out.Decoded? ==> out.rest == stream[LENGTH_WIDTH + DeclaredLength(stream)..]
  {
    match ReadFrame(stream)
    case None => Rejected(Truncated)
    case Some(Frame(payload, rest)) =>
      if |payload| == 0 then Panicked  // `payload[0]` on an empty buffer
      else if payload[0] == PUBLISH_TAG then
        match FromUtf8(payload[1..])
        case Some(doc) => Decoded(Publish(doc), rest)
        case None => Rejected(InvalidUtf8)
      else if payload[0] == SEARCH_TAG then
        match FromUtf8(payload[1..])
        case Some(word) => Decoded(Search(word), rest)
        case None => Rejected(InvalidUtf8)
      else if payload[0] == RETRIEVE_TAG then
        if |payload| >= 1 + ID_WIDTH then Decoded(Retrieve(ReadId(payload[1..1 + ID_WIDTH])), rest)
        else Rejected(ShortId)
      else Rejected(UnknownTag(payload[0]))
  }

  /** Decoding an encoded request gives it back and consumes exactly its frame. */
  lemma RequestRoundTrip(r: Request, rest: seq<Byte>)
    requires |RequestPayload(r)| < U32_LIMIT
    ensures DecodeRequest(EncodeRequest(r) + rest) == Decoded(r, rest)
  {
    var payload := RequestPayload(r);
    ReadFramed(payload, rest);
    match r
    case Publish(doc) => assert payload[1..] == doc;
    case Search(word) => assert payload[1..] == word;
    case Retrieve(id) => assert payload[1..1 + ID_WIDTH] == IdBytes(id);
  }

  /** A text request decodes exactly when its body is valid UTF-8; nothing else is checked. */
  lemma TextRequestDecoding(payload: seq<Byte>, rest: seq<Byte>)
    requires |payload| < U32_LIMIT && |payload| > 0
    requires payload[0] == PUBLISH_TAG || payload[0] == SEARCH_TAG
    ensures !ValidUtf8(payload[1..]) ==> DecodeRequest(Framed(payload) + rest) == Rejected(InvalidUtf8)
    ensures ValidUtf8(payload[1..]) && payload[0] == PUBLISH_TAG ==>
      DecodeRequest(Framed(payload) + rest) == Decoded(Publish(payload[1..]), rest)
    ensures ValidUtf8(payload[1..]) && payload[0] == SEARCH_TAG ==>
      DecodeRequest(Framed(payload) + rest) == Decoded(Search(payload[1..]), rest)
  {
    ReadFramed(payload, rest);
  }

  /**
   * A `Retrieve` frame with fewer than ID_WIDTH bytes after the tag decodes
   * to nothing; otherwise the next ID_WIDTH bytes are the identifier and any
   * further payload bytes are ignored.
   */
  lemma RetrieveRequestDecoding(payload: seq<Byte>, rest: seq<Byte>)
    requires |payload| < U32_LIMIT && |payload| > 0 && payload[0] == RETRIEVE_TAG
    ensures |payload| < 1 + ID_WIDTH ==> DecodeRequest(Framed(payload) + rest) == Rejected(ShortId)
    ensures |payload| >= 1 + ID_WIDTH ==>
      DecodeRequest(Framed(payload) + rest) == Decoded(Retrieve(ReadId(payload[1..1 + ID_WIDTH])), rest)
  {
    ReadFramed(payload, rest);
  }

  /** A request tag other than 0, 1 and 2 decodes to nothing. */
  lemma UnknownRequestTag(payload: seq<Byte>, rest: seq<Byte>)
    requires |payload| < U32_LIMIT && |payload| > 0 && payload[0] > RETRIEVE_TAG
    ensures DecodeRequest(Framed(payload) + rest) == Rejected(UnknownTag(payload[0]))
  {
    ReadFramed(payload, rest);
  }

  /** A request header declaring length 0 makes the decoder panic. */
  lemma EmptyRequestFramePanics(rest: seq<Byte>)
    ensures DecodeRequest([0, 0, 0, 0] + rest) == Panicked
  {
    var stream := [0, 0, 0, 0] + rest;
    assert stream[..LENGTH_WIDTH] == ToBigEndian(0, LENGTH_WIDTH);
    FromToBigEndian(0, LENGTH_WIDTH);
  }

  /**
   * The request decoder with the empty payload rejected before the tag is
   * read. It never panics and agrees with `DecodeRequest` on every stream
   * that one does not panic on.
   */
  function DecodeRequestChecked(stream: seq<Byte>): (out: Outcome<Request>)
    ensures !out.Panicked?
    ensures ReadFrame(stream).Some? && ReadFrame(stream).value.payload == [] ==> out == Rejected(EmptyPayload)
    ensures !DecodeRequest(stream).Panicked? ==> out == DecodeRequest(stream)
  {
    match ReadFrame(stream)
    case Some(Frame(payload, _)) =>
      if payload == [] then Rejected(EmptyPayload) else DecodeRequest(stream)
    case None => DecodeRequest(stream)
  }

  /**
   * A document of 2^32 - 1 bytes gives a payload of exactly 2^32 bytes,
   * whose length prefix wraps to 0: the decoder panics on an honest frame.
   */
  lemma OversizePublishPanics(doc: Text, rest: seq<Byte>)
    requires |doc| % U32_LIMIT == U32_LIMIT - 1
    ensures DecodeRequest(EncodeRequest(Publish(doc)) + rest) == Panicked
  {
    var payload := RequestPayload(Publish(doc));
    var k := |doc| / U32_LIMIT + 1;
    assert |payload| == |doc| + 1;
    assert |payload| == U32_LIMIT * k;
    assert |payload| % U32_LIMIT == 0;
    ReadFramedTruncated(payload, rest);
    assert EncodeRequest(Publish(doc)) == Framed(payload);
  }

  /**
   * The request encoder with the `u32` overflow reported instead of
   * truncated: it refuses exactly the payloads whose length does not fit the
   * header; every frame it produces is the one `Request::to_bytes` writes,
   * and decodes back to the request.
   */
  function EncodeRequestChecked(r: Request): (m: Option<seq<Byte>>)
    ensures m.Some? <==> |RequestPayload(r)| < U32_LIMIT
    ensures m.Some? ==> m.value == EncodeRequest(r)
    ensures m.Some? ==> forall rest :: DecodeRequest(m.value + rest) == Decoded(r, rest)
  {
    if |RequestPayload(r)| < U32_LIMIT then
      assert forall rest :: DecodeRequest(EncodeRequest(r) + rest) == Decoded(r, rest) by {
        forall rest { RequestRoundTrip(r, rest); }
      }
      Some(EncodeRequest(r))
    else None
  }

  // ------------------------------------------------------------- responses

  /** The tag byte a response is sent under. */
  function ResponseTag(r: Response): Byte {
    match r
    case PublishSuccess(_) => PUBLISH_SUCCESS_TAG
    case SearchSuccess(_) => SEARCH_SUCCESS_TAG
    case RetrieveSuccess(_) => RETRIEVE_SUCCESS_TAG
    case Failure => FAILURE_TAG
  }

  /** Identifiers as their big-endian forms, joined end to end, in order. */
  function IdsBytes(ids: seq<Usize>): (bytes: seq<Byte>)
    ensures |bytes| == ID_WIDTH * |ids|
  {
    if ids == [] then [] else IdBytes(ids[0]) + IdsBytes(ids[1..])
  }

  /** The i-th chunk of ID_WIDTH bytes is the i-th identifier's big-endian form. */
  lemma {:induction false} IdsBytesChunk(ids: seq<Usize>, i: nat)
    requires i < |ids|
    ensures IdsBytes(ids)[ID_WIDTH * i..ID_WIDTH * i + ID_WIDTH] == IdBytes(ids[i])
  {
    var bytes := IdsBytes(ids);
    if i > 0 {
      var tail := IdsBytes(ids[1..]);
      IdsBytesChunk(ids[1..], i - 1);
      assert bytes[ID_WIDTH * i..ID_WIDTH * i + ID_WIDTH] == tail[ID_WIDTH * (i - 1)..ID_WIDTH * (i - 1) + ID_WIDTH];
    } else {
      assert bytes[..ID_WIDTH] == IdBytes(ids[0]);
    }
  }

  /** Appending an identifier appends its bytes. */
  lemma {:induction false} IdsBytesAppend(ids: seq<Usize>, id: Usize)
    ensures IdsBytes(ids + [id]) == IdsBytes(ids) + IdBytes(id)
  {
    if ids != [] {
      assert (ids + [id])[1..] == ids[1..] + [id];
      IdsBytesAppend(ids[1..], id);
    }
  }

  /**
   * The identifiers in consecutive ID_WIDTH-byte chunks of `body`, in order;
   * a trailing remainder shorter than ID_WIDTH is ignored.
   */
  function ParseIds(body: seq<Byte>): (ids: seq<Usize>)
    ensures |ids| == |body| / ID_WIDTH
    ensures forall i :: 0 <= i < |ids| ==>
      IdBytes(ids[i]) == body[ID_WIDTH * i..ID_WIDTH * i + ID_WIDTH]
    decreases |body|
  {
    if |body| < ID_WIDTH then []
    else
      var tail := ParseIds(body[ID_WIDTH..]);
      var ids := [ReadId(body[..ID_WIDTH])] + tail;
      assert forall i :: 1 <= i < |ids| ==>
        body[ID_WIDTH * i..ID_WIDTH * i + ID_WIDTH] == body[ID_WIDTH..][ID_WIDTH * (i - 1)..ID_WIDTH * (i - 1) + ID_WIDTH];
      ids
  }

  /** Parsing joined identifiers, with fewer than ID_WIDTH bytes after them, gives them back. */
  lemma {:induction false} ParseIdsBytes(ids: seq<Usize>, tail: seq<Byte>)
    requires |tail| < ID_WIDTH
    ensures ParseIds(IdsBytes(ids) + tail) == ids
  {
    if ids != [] {
      var body := IdsBytes(ids) + tail;
      assert body[..ID_WIDTH] == IdBytes(ids[0]);
      assert body[ID_WIDTH..] == IdsBytes(ids[1..]) + tail;
      ParseIdsBytes(ids[1..], tail);
    }
  }

  /** The payload of a response's frame: its tag, then its body. */
  function ResponsePayload(r: Response): seq<Byte> {
    match r
    case PublishSuccess(index) => [PUBLISH_SUCCESS_TAG] + IdBytes(index)
    case SearchSuccess(indices) => [SEARCH_SUCCESS_TAG] + IdsBytes(indices)
    case RetrieveSuccess(doc) => [RETRIEVE_SUCCESS_TAG] + doc
    case Failure => [FAILURE_TAG]
  }

  /**
   * `Response::to_bytes`, as a value. The frame starts with a 4-byte
   * big-endian length equal to the number of bytes after it whenever that
   * number fits a `u32`, and the tag comes next.
   */
  function EncodeResponse(r: Response): (message: seq<Byte>)
    ensures |message| > LENGTH_WIDTH && message[LENGTH_WIDTH] == ResponseTag(r)
    ensures |message| - LENGTH_WIDTH < U32_LIMIT ==>
      FromBigEndian(message[..LENGTH_WIDTH]) == |message| - LENGTH_WIDTH
  {
    var payload := ResponsePayload(r);
    assert payload[0] == ResponseTag(r);
    Framed(payload)
  }

  /** `Failure` is sent as exactly the five bytes 0, 0, 0, 1, 3. */
  lemma FailureFrame()
    ensures EncodeResponse(Failure) == [0, 0, 0, 1, 3]
  {
    WidthLimits();
    assert LengthPrefix(1) == ToBigEndian(1, LENGTH_WIDTH) == [0, 0, 0, 1];
  }

  /**
   * `Response::from_bytes`, as a value. A stream too short for its header
   * or its declared payload is `Truncated`; a declared length of 0 panics;
   * a value, when there is one, leaves exactly the bytes after the frame
   * unconsumed.
   */
  function DecodeResponse(stream: seq<Byte>): (out: Outcome<Response>)
    ensures ReadFrame(stream).None? ==> out == Rejected(Truncated)
    ensures out.Panicked? <==> ReadFrame(stream).Some? && ReadFrame(stream).value.payload == []
    ensures out.Decoded? ==> out.rest == stream[LENGTH_WIDTH + DeclaredLength(stream)..]
  {
    match ReadFrame(stream)
    case None => Rejected(Truncated)
    case Some(Frame(payload, rest)) =>
      if |payload| == 0 then Panicked  // `payload[0]` on an empty buffer
      else if payload[0] == PUBLISH_SUCCESS_TAG then
        if |payload| >= 1 + ID_WIDTH then Decoded(PublishSuccess(ReadId(payload[1..1 + ID_WIDTH])), rest)
        else Rejected(ShortId)
      else if payload[0] == SEARCH_SUCCESS_TAG then
        Decoded(SearchSuccess(ParseIds(payload[1..])), rest)
      else if payload[0] == RETRIEVE_SUCCESS_TAG then
        match FromUtf8(payload[1..])
        case Some(doc) => Decoded(RetrieveSuccess(doc), rest)
        case None => Rejected(InvalidUtf8)
      else if payload[0] == FAILURE_TAG then Decoded(Failure, rest)
      else Rejected(UnknownTag(payload[0]))
  }

  /** Decoding an encoded response gives it back, identifiers in their original order. */
  lemma ResponseRoundTrip(r: Response, rest: seq<Byte>)
    requires |ResponsePayload(r)| < U32_LIMIT
    ensures DecodeResponse(EncodeResponse(r) + rest) == Decoded(r, rest)
  {
    var payload := ResponsePayload(r);
    ReadFramed(payload, rest);
    match r
    case PublishSuccess(index) => assert payload[1..1 + ID_WIDTH] == IdBytes(index);
    case SearchSuccess(indices) =>
      assert payload[1..] == IdsBytes(indices) + [];
      ParseIdsBytes(indices, []);
    case RetrieveSuccess(doc) => assert payload[1..] == doc;
    case Failure =>
  }

  /**
   * A `PublishSuccess` frame with fewer than ID_WIDTH bytes after the tag
   * decodes to nothing; otherwise the next ID_WIDTH bytes are the identifier
   * and any further payload bytes are ignored.
   */
  lemma PublishSuccessDecoding(payload: seq<Byte>, rest: seq<Byte>)
    requires |payload| < U32_LIMIT && |payload| > 0 && payload[0] == PUBLISH_SUCCESS_TAG
    ensures |payload| < 1 + ID_WIDTH ==> DecodeResponse(Framed(payload) + rest) == Rejected(ShortId)
    ensures |payload| >= 1 + ID_WIDTH ==>
      DecodeResponse(Framed(payload) + rest) == Decoded(PublishSuccess(ReadId(payload[1..1 + ID_WIDTH])), rest)
  {
    ReadFramed(payload, rest);
  }

  /**
   * A `SearchSuccess` frame always decodes: to (length - 1) / ID_WIDTH
   * identifiers read from consecutive chunks starting at offset 1, a
   * shorter remainder ignored.
   */
  lemma SearchSuccessDecoding(payload: seq<Byte>, rest: seq<Byte>)
    requires |payload| < U32_LIMIT && |payload| > 0 && payload[0] == SEARCH_SUCCESS_TAG
    ensures var out := DecodeResponse(Framed(payload) + rest);
      && out.Decoded? && out.rest == rest && out.value.SearchSuccess?
      && |out.value.indices| == (|payload| - 1) / ID_WIDTH
      && forall i :: 0 <= i < |out.value.indices| ==>
           IdBytes(out.value.indices[i]) == payload[1 + ID_WIDTH * i..1 + ID_WIDTH * i + ID_WIDTH]
  {
    ReadFramed(payload, rest);
    var body := payload[1..];
    assert forall i :: 0 <= i < |body| / ID_WIDTH ==>
      body[ID_WIDTH * i..ID_WIDTH * i + ID_WIDTH] == payload[1 + ID_WIDTH * i..1 + ID_WIDTH * i + ID_WIDTH];
  }

  /** A `RetrieveSuccess` frame decodes exactly when its body is valid UTF-8. */
  lemma RetrieveSuccessDecoding(payload: seq<Byte>, rest: seq<Byte>)
    requires |payload| < U32_LIMIT && |payload| > 0 && payload[0] == RETRIEVE_SUCCESS_TAG
    ensures !ValidUtf8(payload[1..]) ==> DecodeResponse(Framed(payload) + rest) == Rejected(InvalidUtf8)
    ensures ValidUtf8(payload[1..]) ==>
      DecodeResponse(Framed(payload) + rest) == Decoded(RetrieveSuccess(payload[1..]), rest)
  {
    ReadFramed(payload, rest);
  }

  /** A `Failure` frame decodes to `Failure` whatever payload bytes follow the tag. */
  lemma FailureDecoding(payload: seq<Byte>, rest: seq<Byte>)
    requires |payload| < U32_LIMIT && |payload| > 0 && payload[0] == FAILURE_TAG
    ensures DecodeResponse(Framed(payload) + rest) == Decoded(Failure, rest)
  {
    ReadFramed(payload, rest);
  }

  /** A response tag above 3 decodes to nothing. */
  lemma UnknownResponseTag(payload: seq<Byte>, rest: seq<Byte>)
    requires |payload| < U32_LIMIT && |payload| > 0 && payload[0] > FAILURE_TAG
    ensures DecodeResponse(Framed(payload) + rest) == Rejected(UnknownTag(payload[0]))
  {
    ReadFramed(payload, rest);
  }

  /** A response header declaring length 0 makes the decoder panic. */
  lemma EmptyResponseFramePanics(rest: seq<Byte>)
    ensures DecodeResponse([0, 0, 0, 0] + rest) == Panicked
  {
    var stream := [0, 0, 0, 0] + rest;
    assert stream[..LENGTH_WIDTH] == ToBigEndian(0, LENGTH_WIDTH);
    FromToBigEndian(0, LENGTH_WIDTH);
  }

  /**
   * The response decoder with the empty payload rejected before the tag is
   * read. It never panics and agrees with `DecodeResponse` on every stream
   * that one does not panic on.
   */
  function DecodeResponseChecked(stream: seq<Byte>): (out: Outcome<Response>)
    ensures !out.Panicked?
    ensures ReadFrame(stream).Some? && ReadFrame(stream).value.payload == [] ==> out == Rejected(EmptyPayload)
    ensures !DecodeResponse(stream).Panicked? ==> out == DecodeResponse(stream)
  {
    match ReadFrame(stream)
    case Some(Frame(payload, _)) =>
      if payload == [] then Rejected(EmptyPayload) else DecodeResponse(stream)
    case None => DecodeResponse(stream)
  }

  /**
   * A document of 2^32 - 1 bytes gives a payload of exactly 2^32 bytes,
   * whose length prefix wraps to 0: the client panics on an honest reply.
   */
  lemma OversizeDocumentPanics(doc: Text, rest: seq<Byte>)
    requires |doc| % U32_LIMIT == U32_LIMIT - 1
    ensures DecodeResponse(EncodeResponse(RetrieveSuccess(doc)) + rest) == Panicked
  {
    var payload := ResponsePayload(RetrieveSuccess(doc));
    var k := |doc| / U32_LIMIT + 1;
    assert |payload| == |doc| + 1;
    assert |payload| == U32_LIMIT * k;
    assert |payload| % U32_LIMIT == 0;
    ReadFramedTruncated(payload, rest);
    assert EncodeResponse(RetrieveSuccess(doc)) == Framed(payload);
  }

  /**
   * A `SearchSuccess` payload is 1 + 8n bytes, an odd number, so its
   * truncated length is never 0 and the client never panics on it: past
   * 2^32 bytes it only reads a shorter list.
   */
  lemma SearchFrameNeverPanics(results: seq<Usize>, rest: seq<Byte>)
    ensures !DecodeResponse(EncodeResponse(SearchSuccess(results)) + rest).Panicked?
  {
    var payload := ResponsePayload(SearchSuccess(results));
    var n := |results|;
    assert |payload| == 1 + 8 * n;
    var q := |payload| / U32_LIMIT;
    assert |payload| % U32_LIMIT == 1 + 8 * (n - 0x2000_0000 * q);
    ReadFramedTruncated(payload, rest);
  }

  /**
   * The response encoder with the `u32` overflow reported instead of
   * truncated: it refuses exactly the payloads whose length does not fit the
   * header; every frame it produces is the one `Response::to_bytes` writes,
   * and decodes back to the response.
   */
  function EncodeResponseChecked(r: Response): (m: Option<seq<Byte>>)
    ensures m.Some? <==> |ResponsePayload(r)| < U32_LIMIT
    ensures m.Some? ==> m.value == EncodeResponse(r)
    ensures m.Some? ==> forall rest :: DecodeResponse(m.value + rest) == Decoded(r, rest)
  {
    if |ResponsePayload(r)| < U32_LIMIT then
      assert forall rest :: DecodeResponse(EncodeResponse(r) + rest) == Decoded(r, rest) by {
        forall rest { ResponseRoundTrip(r, rest); }
      }
      Some(EncodeResponse(r))
    else None
  }

  /** `Response::to_bytes`: the identifiers of `SearchSuccess` are appended one at a time. */
  method ResponseToBytes(r: Response) returns (message: seq<Byte>)
    ensures message == EncodeResponse(r)
  {
    var payload: seq<Byte>;
    match r {
    case PublishSuccess(index) =>
      payload := [PUBLISH_SUCCESS_TAG] + IdBytes(index);
      assert payload == ResponsePayload(r);
    case SearchSuccess(indices) =>
      payload := [SEARCH_SUCCESS_TAG];
      for i := 0 to |indices|
        invariant payload == [SEARCH_SUCCESS_TAG] + IdsBytes(indices[..i])
      {
        IdsBytesAppend(indices[..i], indices[i]);
        assert indices[..i + 1] == indices[..i] + [indices[i]];
        payload := payload + IdBytes(indices[i]);
      }
      assert indices[..|indices|] == indices;
      assert payload == ResponsePayload(r);
    case RetrieveSuccess(doc) =>
      payload := [RETRIEVE_SUCCESS_TAG] + doc;
      assert payload == ResponsePayload(r);
    case Failure =>
      payload := [FAILURE_TAG];
      assert payload == ResponsePayload(r);
    }
    message := LengthPrefix(|payload|) + payload;
  }

  /**
   * `Response::from_bytes`: the identifiers of `SearchSuccess` are read in a
   * loop that advances by ID_WIDTH bytes while a whole chunk remains.
   */
  method ResponseFromBytes(stream: seq<Byte>) returns (out: Outcome<Response>)
    ensures out == DecodeResponse(stream)
  {
    var frame := ReadFrame(stream);
    if frame.None? {
      return Rejected(Truncated);
    }
    var payload, rest := frame.value.payload, frame.value.rest;
    if |payload| == 0 {
      return Panicked;
    }
    var variant := payload[0];
    if variant == PUBLISH_SUCCESS_TAG {
      if |payload| >= 1 + ID_WIDTH {
        out := Decoded(PublishSuccess(ReadId(payload[1..1 + ID_WIDTH])), rest);
      } else {
        out := Rejected(ShortId);
      }
    } else if variant == SEARCH_SUCCESS_TAG {
      var indices: seq<Usize> := [];
      var start := 1;
      while start + ID_WIDTH <= |payload|
        invariant 1 <= start <= |payload|
        invariant indices + ParseIds(payload[start..]) == ParseIds(payload[1..])
      {
        assert payload[start..][ID_WIDTH..] == payload[start + ID_WIDTH..];
        assert payload[start..][..ID_WIDTH] == payload[start..start + ID_WIDTH];
        indices := indices + [ReadId(payload[start..start + ID_WIDTH])];
        start := start + ID_WIDTH;
      }
      assert |payload[start..]| < ID_WIDTH;
      assert indices == ParseIds(payload[1..]);
      out := Decoded(SearchSuccess(indices), rest);
    } else if variant == RETRIEVE_SUCCESS_TAG {
      var doc := FromUtf8(payload[1..]);
      out := if doc.Some? then Decoded(RetrieveSuccess(doc.value), rest) else Rejected(InvalidUtf8);
    } else if variant == FAILURE_TAG {
      out := Decoded(Failure, rest);
    } else {
      out := Rejected(UnknownTag(variant));
    }
  }
}
