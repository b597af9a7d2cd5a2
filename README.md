# Document-archive wire protocol and request dispatch

This project is a Dafny model of the core of a small document-archive server. Clients publish
text documents, search for the documents that contain a word, and retrieve a document by its
identifier. Each exchange is one request frame and one response frame on a stream connection.

The model covers two parts:

- **The wire protocol** (`src/message.rs`). The two tagged unions are `Request` (`Publish`,
  `Search`, `Retrieve`) and `Response` (`PublishSuccess`, `SearchSuccess`, `RetrieveSuccess`,
  `Failure`). A frame is a 4-byte big-endian payload length followed by the payload. The payload
  is a 1-byte tag and then the variant's body: UTF-8 text, one 8-byte big-endian identifier, or
  8-byte identifiers joined end to end. Decoding takes a byte stream (`seq<Byte>`). It returns
  one of three outcomes:
  - the value plus the unconsumed rest of the stream;
  - no value (the source's `None`);
  - a panic of the decoding thread.
- **Request dispatch** (`process_message` in `src/server.rs`). The server may have been told to
  stop; if so, the request is dropped. Otherwise the request goes to one store operation, and
  the encoded response is written back.

Files and modules:

- `wrappers.dfy` (`Wrappers`): `Option`.
- `bytes.dfy` (`Bytes`): octets; the `u32` length width and the 64-bit `usize` identifier
  width; big-endian conversion and its two inverse lemmas.
- `utf8.dfy` (`Utf8`): UTF-8 well-formedness as `String::from_utf8` checks it. This follows
  Table 3-7 of the Unicode Standard: no overlong forms, no surrogates, nothing above U+10FFFF.
  `Text` is the byte sequences that pass this check, so every `String` of the source is a
  `Text`. `FromUtf8` stands for `String::from_utf8(..).ok()`. The check is tied to an
  independent definition: the bit layout that encodes a Unicode scalar value
  (`EncodeScalar`). The bytes accepted are exactly the encodings of strings of scalar values.
- `message.dfy` (`Message`): frames, the encoders, the decoders, the round trips and the
  failure conditions.
  - `Response::to_bytes` appends identifiers in a `for` loop and `Response::from_bytes` reads
    them in a `while` loop. Both are modelled as methods (`ResponseToBytes`,
    `ResponseFromBytes`). Each is proved equal to a specification function (`EncodeResponse`,
    `DecodeResponse`), and the properties are proved about those functions.
  - The `Request` encoder and decoder have no loops, so they are pure functions.
- `server.dfy` (`Server`): `process_message` over an abstract store.
  - The store is an opaque state plus three total functions (`publish`, `search`, `retrieve`).
    Any of them may change the state.
  - The model records the calls made into the store, the new store state, and the bytes
    written (`None` when nothing is written).

Identifiers are 8 bytes (64-bit). The source uses `size_of::<usize>()` for the `Retrieve` and
`PublishSuccess` fields and a literal `8` for `SearchSuccess` chunks. It builds a `usize` from an
`[u8; 8]` (src/message.rs:149-151), so it only compiles where `usize` is 8 bytes, and there the
two widths agree.

The length prefix is `payload.len() as u32`. The model writes this truncation out as
`% 2^32`, so both encoders are total. The round-trip lemmas require the payload to be shorter
than 2^32 bytes. A longer payload gets a wrapped length, and the reader then takes a shorter,
wrong frame (see "## Findings").

## Model

| member | source | states |
|---|---|---|
| `Bytes.IdBytes` | src/message.rs:27 | An identifier is sent as exactly 8 bytes whose big-endian value is the identifier |
| `Bytes.ReadId` | src/message.rs:64-68 | 8 bytes are read as the identifier whose big-endian form they are, so every 8-byte field decodes and the encoding is injective |
| `Bytes.FromToBigEndian` | src/message.rs:27 | Reading back the big-endian bytes of a value gives the value |
| `Bytes.ToFromBigEndian` | src/message.rs:44 | Every byte sequence is the big-endian form of the integer it denotes |
| `Utf8.EncodeScalarWellFormed` | src/message.rs:56 | The UTF-8 form of every scalar value is accepted as one whole character, whatever bytes follow it |
| `Utf8.DecodeScalar` | src/message.rs:56 | Every character the check accepts is exactly the UTF-8 form of some scalar value, so no overlong form, surrogate or value above U+10FFFF gets through |
| `Utf8.EncodeScalarsValid` | src/message.rs:56 | The UTF-8 form of every string of scalar values is accepted |
| `Utf8.DecodeScalars` | src/message.rs:56 | Every accepted byte sequence is the UTF-8 form of a string of scalar values |
| `Utf8.FromUtf8Characterization` | src/message.rs:56 | Text is accepted exactly when its bytes are the UTF-8 form of some string of scalar values |
| `Message.LengthPrefix` | src/message.rs:33 | The length prefix is 4 bytes whose big-endian value is the payload length truncated to 32 bits |
| `Message.Framed` | src/message.rs:32-35 | A frame is the 4-byte prefix followed by the payload unchanged; the prefix holds the payload length mod 2^32 |
| `Message.ReadFrame` | src/message.rs:39-50 | A frame is read exactly when the stream holds the 4 header bytes and at least the declared number of payload bytes after them; the stream is then header, payload of the declared length, and rest |
| `Message.ReadFramed` | src/message.rs:32-50 | Reading a frame from a framed payload followed by anything gives back the payload and exactly what followed |
| `Message.FramedReadFrame` | src/message.rs:39-50 | Every stream a frame is read from is a framed payload (shorter than 2^32) followed by the rest, so the lemmas stated on framed payloads cover every stream |
| `Message.WrappedFrame` | src/message.rs:33 | A payload of 2^32 to 2^33 - 1 bytes is read back as a frame holding only its first length - 2^32 bytes; the rest of the payload is left in the stream |
| `Message.ReadFramedTruncated` | src/message.rs:33-50 | A framed payload of any size is always read as a frame, whose length is the payload's length mod 2^32; it is empty exactly when that length is a multiple of 2^32 |
| `Message.EncodeRequest` | src/message.rs:13-36 | An encoded request starts with a 4-byte big-endian length equal to the number of bytes after it (when that fits 32 bits), followed by the request's tag |
| `Message.DecodeRequest` | src/message.rs:38-76 | A short header or short payload gives no value; a declared length of 0 panics, and nothing else does; a decoded value consumes exactly 4 + length bytes |
| `Message.RequestRoundTrip` | src/message.rs:13-76 | Decoding an encoded request, followed by any bytes, gives the request back and leaves exactly those bytes |
| `Message.TextRequestDecoding` | src/message.rs:55-62 | A `Publish` or `Search` frame decodes exactly when its body is valid UTF-8, to that text; otherwise no value |
| `Message.RetrieveRequestDecoding` | src/message.rs:63-73 | A `Retrieve` frame with fewer than 8 bytes after the tag gives no value; otherwise the next 8 bytes are the id and any further payload bytes are ignored |
| `Message.UnknownRequestTag` | src/message.rs:74 | A request tag above 2 gives no value |
| `Message.EmptyRequestFramePanics` | src/message.rs:47-53 | A request header declaring length 0 makes the decoder panic, whatever follows |
| `Message.DecodeRequestChecked` | src/message.rs:47-53 | Corrected decoder: never panics, rejects a declared length of 0, and agrees with the source's decoder on every stream where that one does not panic |
| `Message.OversizePublishPanics` | src/message.rs:33 | A `Publish` of a document of k * 2^32 - 1 bytes (k >= 1) is framed with length 0, and decoding that honest frame panics |
| `Message.EncodeRequestChecked` | src/message.rs:33 | Corrected encoder: refuses exactly the requests whose payload does not fit the 32-bit header; every frame it produces is the frame `Request::to_bytes` writes, and decodes back to the request, whatever follows |
| `Message.IdsBytes` | src/message.rs:101-107 | The joined identifiers take exactly 8 bytes each |
| `Message.IdsBytesChunk` | src/message.rs:103-105 | The i-th 8-byte chunk of the joined identifiers is the i-th identifier, so order is kept |
| `Message.IdsBytesAppend` | src/message.rs:103-105 | Appending an identifier to the list appends its 8 bytes to the encoding |
| `Message.ParseIds` | src/message.rs:145-154 | Parsing yields exactly len / 8 identifiers, the i-th read from bytes 8i to 8i+8; a shorter remainder is ignored |
| `Message.ParseIdsBytes` | src/message.rs:101-107 | Parsing joined identifiers followed by fewer than 8 stray bytes gives back the identifiers in order |
| `Message.EncodeResponse` | src/message.rs:94-119 | An encoded response starts with a 4-byte big-endian length equal to the number of bytes after it (when that fits 32 bits), followed by the response's tag |
| `Message.FailureFrame` | src/message.rs:113-118 | `Failure` is sent as exactly the bytes 0, 0, 0, 1, 3 |
| `Message.DecodeResponse` | src/message.rs:121-163 | A short header or short payload gives no value; a declared length of 0 panics, and nothing else does; a decoded value consumes exactly 4 + length bytes |
| `Message.ResponseRoundTrip` | src/message.rs:94-163 | Decoding an encoded response, followed by any bytes, gives the response back (search results in their original order) and leaves exactly those bytes |
| `Message.PublishSuccessDecoding` | src/message.rs:135-143 | A `PublishSuccess` frame with fewer than 8 bytes after the tag gives no value; otherwise the next 8 bytes are the id and further bytes are ignored |
| `Message.SearchSuccessDecoding` | src/message.rs:145-154 | A `SearchSuccess` frame always decodes, to (length - 1) / 8 ids read from consecutive 8-byte chunks starting at offset 1 |
| `Message.RetrieveSuccessDecoding` | src/message.rs:156-158 | A `RetrieveSuccess` frame decodes exactly when its body is valid UTF-8, to that text; otherwise no value |
| `Message.FailureDecoding` | src/message.rs:160 | A `Failure` frame decodes to `Failure` whatever bytes follow the tag |
| `Message.UnknownResponseTag` | src/message.rs:161 | A response tag above 3 gives no value |
| `Message.EmptyResponseFramePanics` | src/message.rs:128-133 | A response header declaring length 0 makes the decoder panic, whatever follows |
| `Message.DecodeResponseChecked` | src/message.rs:128-133 | Corrected decoder: never panics, rejects a declared length of 0, and agrees with the source's decoder on every stream where that one does not panic |
| `Message.OversizeDocumentPanics` | src/message.rs:116 | A `RetrieveSuccess` of a document of k * 2^32 - 1 bytes (k >= 1) is framed with length 0, and decoding that honest frame panics |
| `Message.SearchFrameNeverPanics` | src/message.rs:101-116 | A `SearchSuccess` frame never makes the client panic, however many ids it holds: its payload length 1 + 8n is odd, so it never truncates to 0 |
| `Message.EncodeResponseChecked` | src/message.rs:116 | Corrected encoder: refuses exactly the responses whose payload does not fit the 32-bit header; every frame it produces is the frame `Response::to_bytes` writes, and decodes back to the response, whatever follows |
| `Message.ResponseToBytes` | src/message.rs:94-119 | The encoder, with its identifier-appending loop, produces exactly `EncodeResponse` of the response |
| `Message.ResponseFromBytes` | src/message.rs:121-163 | The decoder, with its chunk-reading loop, produces exactly `DecodeResponse` of the stream |
| `Server.ProcessMessage` | src/server.rs:21-47 | With the shutdown flag set, no store call is made, the store is unchanged and nothing is written. Otherwise exactly one store call is made, the one the request's variant names, and bytes are written that hold a 4-byte header and a tag answering the request (`Failure` only for `Retrieve`); the exact bytes written are stated by `PublishResponds`, `SearchResponds` and `RetrieveResponds` |
| `Server.PublishResponds` | src/server.rs:28-31 | `Publish(doc)` calls `publish(doc)` once, writes `PublishSuccess` with exactly the id the store returned, and the client decodes that id |
| `Server.SearchResponds` | src/server.rs:32-35 | `Search(word)` calls `search(word)` once, writes `SearchSuccess` with the store's list; the client decodes the same list in the same order |
| `Server.RetrieveResponds` | src/server.rs:36-41 | `Retrieve(id)` calls `retrieve(id)` once; a found document is written as `RetrieveSuccess(doc)` and decodes back to it; a miss is written as the `Failure` frame 0, 0, 0, 1, 3 |

## Left out

- `src/pool.rs` is not part of this model. The worker pool is concurrency: a channel behind a
  mutex, spawned threads, and joining them on drop.
- `Server::listen`, `Server::run` and `Server::stop` (src/server.rs:94-130) are not modelled.
  They are TCP bind and accept, the Ctrl-C handler, thread spawning, and a busy-wait on the
  atomic flag. Only the value one load of that flag observed is kept, as the `stopped` input of
  `ProcessMessage`.
- `src/client.rs` and `src/main.rs` are not part of this model. They are socket and file I/O
  plus command-line parsing.
- The store (`crate::database::Database`) is not part of this model. Its three operations are
  arbitrary total functions of an opaque state. Nothing is assumed about its search semantics,
  id allocation or result order.
- Logging (`println!`) is left out.
- Reader and writer errors other than end of stream are left out. A `read_exact` failure is
  modelled as the stream ending too early.
- What a failed decode has consumed from the stream is not modelled. Only a successful decode
  returns the rest of the stream.
- `ProcessMessage`: the written bytes are the bytes `write_all` was asked to write. A failed
  write is ignored by the source and does not appear in the model.
- Integer widths: identifiers are 64-bit `usize` only. The source does not compile where
  `usize` is not 8 bytes.
- The `Reason` carried by a rejected decode does not exist in the source, which returns a bare
  `None`. It is there only so the lemmas can tell the failure cases apart.
- `SearchResponds`: the decode half holds only while 1 + 8 * (number of results) < 2^32. Beyond
  that, the length prefix wraps. The client then reads a shorter frame and silently gets only
  a prefix of the ids (`WrappedFrame`, `ReadFramedTruncated`). It never panics on such a frame
  (`SearchFrameNeverPanics`).
- `RetrieveResponds`: the decode half holds only while the document is shorter than
  2^32 - 1 bytes. A longer document is read back as a prefix of itself, or as invalid UTF-8.
  It panics the client when its length is k * 2^32 - 1 for some k >= 1
  (`OversizeDocumentPanics`).
- `ProcessMessage` writes what the source's `to_bytes` produces, wrap-around included. The
  corrected encoders are not used there.

## Findings

| source | as written | input that shows it | evidently intended | confidence | as-written member | corrected member |
|---|---|---|---|---|---|---|
| src/message.rs:47-53 | `Request::from_bytes` indexes `payload[0]` without checking that the declared length is nonzero | the stream `0, 0, 0, 0` (a header declaring an empty payload) panics with an out-of-bounds index, although the function's `Option` result says malformed input gives `None`. (At the server this alone changes nothing: `Server::listen` unwraps the result at src/server.rs:98, so every `None` crashes the accepting thread as well) | an empty payload is rejected as a malformed frame, `None`, like every other malformed input | high (not executed) | `Message.EmptyRequestFramePanics` | `Message.DecodeRequestChecked` |
| src/message.rs:128-133 | `Response::from_bytes` indexes `payload[0]` without checking that the declared length is nonzero | the stream `0, 0, 0, 0` panics the client | an empty payload decodes to `None` | high (not executed) | `Message.EmptyResponseFramePanics` | `Message.DecodeResponseChecked` |
| src/message.rs:33 | `Request::to_bytes` casts the payload length with `as u32`, which truncates silently | a `Publish` of a document of 2^32 - 1 bytes (or any k * 2^32 - 1) has a payload of a multiple of 2^32 bytes and is framed with length 0, so decoding it panics; a payload of 2^32 + k bytes is read back as a k-byte frame | a payload that does not fit the 32-bit header is refused rather than framed with a wrong length | medium (not executed) | `Message.OversizePublishPanics` | `Message.EncodeRequestChecked` |
| src/message.rs:116 | `Response::to_bytes` casts the payload length with `as u32`, which truncates silently | a `RetrieveSuccess` of a document of 2^32 - 1 bytes (or any k * 2^32 - 1) is framed with length 0 and panics the client; a `SearchSuccess` of 2^29 or more ids is read back as a shorter list (exactly 2^29 ids give a 2^32 + 1 byte payload, read back as `SearchSuccess([])`) | a payload that does not fit the 32-bit header is refused rather than framed with a wrong length | medium (not executed) | `Message.OversizeDocumentPanics` | `Message.EncodeResponseChecked` |
