/**
 * Request dispatch on the server (`process_message` in src/server.rs).
 *
 * The document store is external: it is modelled as an opaque state `S`
 * and three total functions, each of which may change the state. The
 * connection is modelled by what is written to it: `None` when nothing is
 * written, `Some(bytes)` otherwise. The shutdown flag is the value the one
 * atomic load observed.
 */
module Server {
  import opened Wrappers
  import opened Bytes
  import opened Utf8
  import opened Message

  /** The store's three operations, as `Database` exposes them. */
  datatype Database<!S> = Database(
    publish: (S, Text) -> (S, Usize),
    search: (S, Text) -> (S, seq<Usize>),
    retrieve: (S, Usize) -> (S, Option<Text>))

  /** One call into the store. */
  datatype StoreCall =
    | PublishCall(doc: Text)
    | SearchCall(word: Text)
    | RetrieveCall(id: Usize)

  /** The effect of processing one request: the store's new state, the calls made into it, the bytes written. */
  datatype Processed<S> = Processed(state: S, calls: seq<StoreCall>, written: Option<seq<Byte>>)

  /** The store operation a request asks for. */
  function CallFor(request: Request): StoreCall {
    match request
    case Publish(doc) => PublishCall(doc)
    case Search(word) => SearchCall(word)
    case Retrieve(id) => RetrieveCall(id)
  }

  /** The response that answers a request, given what the store returned. */
  function Dispatch<S>(db: Database<S>, state: S, request: Request): (S, Response) {
    match request
    case Publish(doc) =>
      var (next, index) := db.publish(state, doc);
      (next, PublishSuccess(index))
    case Search(word) =>
      var (next, results) := db.search(state, word);
      (next, SearchSuccess(results))
    case Retrieve(id) =>
      var (next, found) := db.retrieve(state, id);
      (next, if found.Some? then RetrieveSuccess(found.value) else Failure)
  }

  /**
   * `process_message`. When the shutdown flag is set, nothing reaches the
   * store and nothing is written. Otherwise exactly one store operation is
   * made, the one the request's variant names, and a complete frame is
   * written whose tag matches the request's; a failed write is ignored.
   */
  function ProcessMessage<S>(db: Database<S>, state: S, stopped: bool, request: Request): (p: Processed<S>)
    ensures stopped ==> p == Processed(state, [], None)
    ensures !stopped ==> p.calls == [CallFor(request)]
    ensures !stopped ==> p.written.Some? && |p.written.value| > LENGTH_WIDTH
    ensures !stopped ==>
      (p.written.value[LENGTH_WIDTH] == RequestTag(request) ||
       (request.Retrieve? && p.written.value[LENGTH_WIDTH] == FAILURE_TAG))
  {
    if stopped then Processed(state, [], None)
    else
      var (next, response) := Dispatch(db, state, request);
      Processed(next, [CallFor(request)], Some(EncodeResponse(response)))
  }

  /** A `Publish` answers `PublishSuccess` with exactly the identifier the store returned. */
  lemma PublishResponds<S>(db: Database<S>, state: S, doc: Text)
    ensures var (next, index) := db.publish(state, doc);
      var p := ProcessMessage(db, state, false, Publish(doc));
      && p.state == next && p.calls == [PublishCall(doc)]
      && p.written == Some(EncodeResponse(PublishSuccess(index)))
      && DecodeResponse(p.written.value) == Decoded(PublishSuccess(index), [])
  {
    var (next, index) := db.publish(state, doc);
    ResponseRoundTrip(PublishSuccess(index), []);
    assert EncodeResponse(PublishSuccess(index)) + [] == EncodeResponse(PublishSuccess(index));
  }

  /**
   * A `Search` answers `SearchSuccess` with the store's list, unchanged and
   * in the same order; a client reads that list back whenever the frame's
   * length fits its 32-bit header.
   */
  lemma SearchResponds<S>(db: Database<S>, state: S, word: Text)
    ensures var (next, results) := db.search(state, word);
      var p := ProcessMessage(db, state, false, Search(word));
      && p.state == next && p.calls == [SearchCall(word)]
      && p.written == Some(EncodeResponse(SearchSuccess(results)))
      && (1 + ID_WIDTH * |results| < U32_LIMIT ==>
            DecodeResponse(p.written.value) == Decoded(SearchSuccess(results), []))
  {
    var (next, results) := db.search(state, word);
    if 1 + ID_WIDTH * |results| < U32_LIMIT {
      ResponseRoundTrip(SearchSuccess(results), []);
      assert EncodeResponse(SearchSuccess(results)) + [] == EncodeResponse(SearchSuccess(results));
    }
  }

  /**
   * A `Retrieve` answers `RetrieveSuccess` with the document when the store
   * finds one and `Failure` when it does not.
   */
  lemma RetrieveResponds<S>(db: Database<S>, state: S, id: Usize)
    ensures var (next, found) := db.retrieve(state, id);
      var p := ProcessMessage(db, state, false, Retrieve(id));
      && p.state == next && p.calls == [RetrieveCall(id)]
      && (found.None? ==> p.written == Some([0, 0, 0, 1, 3]))
      && (found.Some? ==> p.written == Some(EncodeResponse(RetrieveSuccess(found.value))))
      && (found.Some? && 1 + |found.value| < U32_LIMIT ==>
            DecodeResponse(p.written.value) == Decoded(RetrieveSuccess(found.value), []))
  {
    var (next, found) := db.retrieve(state, id);
    if found.None? {
      FailureFrame();
    } else if 1 + |found.value| < U32_LIMIT {
      ResponseRoundTrip(RetrieveSuccess(found.value), []);
      assert EncodeResponse(RetrieveSuccess(found.value)) + [] == EncodeResponse(RetrieveSuccess(found.value));
    }
  }
}
