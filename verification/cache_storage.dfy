/**
  The browser side of the Cache Storage API: the check that a batch of
  cache operations has a shape the web-exposed Cache API can produce,
  the origin check, and how the adapters between the storage backend and
  the renderer turn backend errors into replies. Backends are function
  parameters; responses, requests and storages are type parameters.
*/
module CacheStorage {
  import opened Wrappers

  datatype OperationType = Undefined | Put | Delete

  /** One operation of a batch; only its type matters to the validator. */
  datatype BatchOperation<Q> = BatchOperation(operationType: OperationType, request: Q)

  /** Error codes of the Cache Storage interface. */
  datatype CacheStorageError =
    | Success
    | ErrorExists
    | ErrorStorage
    | ErrorNotFound
    | ErrorQuotaExceeded
    | ErrorCacheNameNotFound
    | ErrorQueryTooLarge
    | ErrorNotImplemented
    | ErrorDuplicateOperation

  // ---------------------------------------------------------------------
  // The batch validator

  /**
    The shapes the Cache API can produce: a non-empty batch of one defined
    type throughout, where a delete comes alone.
  */
  predicate WellShapedBatch<Q>(ops: seq<BatchOperation<Q>>)
  {
    && |ops| > 0
    && ops[0].operationType != Undefined
    && (ops[0].operationType == Delete ==> |ops| == 1)
    && forall k :: 0 <= k < |ops| ==> ops[k].operationType == ops[0].operationType
  }

  /**
    Accepts a batch exactly when it is well shaped: empty batches, an
    undefined type, deletes in company and mixed types are refused.
  */
  method ValidBatchOperations<Q>(ops: seq<BatchOperation<Q>>) returns (ok: bool)
    ensures ok <==> WellShapedBatch(ops)
    ensures |ops| == 0 ==> !ok
    ensures |ops| > 0 && ops[0].operationType == Undefined ==> !ok
    ensures ok ==> forall k :: 0 <= k < |ops| ==> ops[k].operationType != Undefined
    ensures ok && (exists k :: 0 <= k < |ops| && ops[k].operationType == Delete) ==> |ops| == 1
  {
    if |ops| == 0 {
      return false;
    }
    var kind := ops[0].operationType;
    if kind == Undefined {
      return false;
    }
    if kind == Delete && |ops| > 1 {
      return false;
    }
    var i := 0;
    while i < |ops|
      invariant 0 <= i <= |ops|
      invariant forall k :: 0 <= k < i ==> ops[k].operationType == kind
    {
      if ops[i].operationType != kind {
        return false;
      }
      i := i + 1;
    }
    return true;
  }

  // ---------------------------------------------------------------------
  // Origins

  /** An origin: opaque (a unique origin with no URL) or a scheme/host/port tuple. */
  datatype Origin = Opaque | Tuple(scheme: string, host: string, port: nat)

  /**
    Only a non-opaque origin that the embedder considers secure may use
    Cache Storage; `isSecure` stands for the secure-origin test on the
    origin's URL.
  */
  function OriginCanAccessCacheStorage(origin: Origin, isSecure: Origin -> bool): (r: bool)
    ensures r ==> origin.Tuple?
    ensures origin.Tuple? ==> (r <==> isSecure(origin))
  {
    origin.Tuple? && isSecure(origin)
  }

  /**
    Opening the storage of an origin: there is none unless the context and
    its cache manager are present and the origin may use Cache Storage.
  */
  function OpenCacheStorage<S>(hasContext: bool, hasManager: bool, origin: Origin,
                               isSecure: Origin -> bool, open: Origin -> S): (r: Option<S>)
    ensures r.Some? <==> hasContext && hasManager && OriginCanAccessCacheStorage(origin, isSecure)
    ensures r.Some? ==> r.value == open(origin)
  {
    if !hasContext || !hasManager || !OriginCanAccessCacheStorage(origin, isSecure) then None
    else Some(open(origin))
  }

  // ---------------------------------------------------------------------
  // Replies of a single cache

  /** A match reply: an error status, or a response, which may be null (None). */
  datatype MatchResult<R> = MatchStatus(status: CacheStorageError) | Response(response: Option<R>)
  datatype MatchAllResult<R> = MatchAllStatus(status: CacheStorageError) | Responses(responses: seq<R>)

  /** What a cache's backend hands to the match-all callback. */
  type MatchAllBackend<-C, R> = C -> (CacheStorageError, seq<R>)
  type MatchBackend<-C, R> = C -> (CacheStorageError, Option<R>)

  /** The match-all callback: "not found" counts as success, any other error is a status. */
  function MatchAllReply<R>(error: CacheStorageError, responses: seq<R>): (r: MatchAllResult<R>)
    ensures r.MatchAllStatus? <==> error !in {Success, ErrorNotFound}
    ensures r.MatchAllStatus? ==> r.status == error
    ensures r.Responses? ==> r.responses == responses
  {
    if error != Success && error != ErrorNotFound then MatchAllStatus(error)
    else Responses(responses)
  }

  /** Match-all on a cache handle that may have been closed. */
  function MatchAll<C, R>(cache: Option<C>, backend: MatchAllBackend<C, R>): (r: MatchAllResult<R>)
    ensures cache.None? ==> r == Responses([])
    ensures r.MatchAllStatus? ==> r.status !in {Success, ErrorNotFound}
    ensures cache.Some? && backend(cache.value).0 in {Success, ErrorNotFound} ==>
      r == Responses(backend(cache.value).1)
    ensures cache.Some? && backend(cache.value).0 !in {Success, ErrorNotFound} ==>
      r == MatchAllStatus(backend(cache.value).0)
  {
    match cache
    case None => MatchAllReply(ErrorNotFound, [])
    case Some(c) =>
      var (error, responses) := backend(c);
      MatchAllReply(error, responses)
  }

  /**
    The match callback: anything but success is a status; a success hands
    on the response as it is, a null one included.
  */
  function MatchReply<R>(error: CacheStorageError, response: Option<R>): (r: MatchResult<R>)
    ensures r.MatchStatus? <==> error != Success
    ensures r.MatchStatus? ==> r.status == error
    ensures r.Response? ==> r.response == response
  {
    if error != Success then MatchStatus(error) else Response(response)
  }

  /** Match on a cache handle that may have been closed. */
  function Match<C, R>(cache: Option<C>, backend: MatchBackend<C, R>): (r: MatchResult<R>)
    ensures cache.None? ==> r == MatchStatus(ErrorNotFound)
    ensures cache.Some? ==> (r.MatchStatus? <==> backend(cache.value).0 != Success)
    ensures cache.Some? && r.MatchStatus? ==> r.status == backend(cache.value).0
    ensures cache.Some? && r.Response? ==> r.response == backend(cache.value).1
  {
    match cache
    case None => MatchReply(ErrorNotFound, None)
    case Some(c) =>
      var (error, response) := backend(c);
      MatchReply(error, response)
  }

  /**
    On a closed handle, match and match-all part ways: match reports "not
    found" while match-all reports an empty list of responses.
  */
  lemma ClosedHandleMatchVersusMatchAll<C, R>(mb: MatchBackend<C, R>, mab: MatchAllBackend<C, R>)
    ensures Match(None, mb) == MatchStatus(ErrorNotFound)
    ensures MatchAll(None, mab) == Responses([])
  {
  }

  // ---------------------------------------------------------------------
  // Batches

  /** What becomes of a batch: refused as a bad message, answered with an error, or handed to the cache. */
  datatype BatchOutcome<Q> = BadMessage | BatchError(error: CacheStorageError) | Forwarded(ops: seq<BatchOperation<Q>>)

  /**
    A batch that is not well shaped is reported as a bad message and never
    reaches the cache; a closed handle answers "not found"; otherwise the
    batch is handed over unchanged.
  */
  method Batch<C, Q>(cache: Option<C>, ops: seq<BatchOperation<Q>>) returns (out: BatchOutcome<Q>)
    ensures out.BadMessage? <==> !WellShapedBatch(ops)
    ensures out.Forwarded? ==> cache.Some? && out.ops == ops
    ensures WellShapedBatch(ops) && cache.None? ==> out == BatchError(ErrorNotFound)
    ensures WellShapedBatch(ops) && cache.Some? ==> out == Forwarded(ops)
  {
    var ok := ValidBatchOperations(ops);
    if !ok {
      return BadMessage;
    }
    if cache.None? {
      return BatchError(ErrorNotFound);
    }
    return Forwarded(ops);
  }

  // ---------------------------------------------------------------------
  // The storage of an origin

  /** What a storage backend reports for a cache name: whether it exists, and an error. */
  type HasBackend<-S> = (S, string) -> (bool, CacheStorageError)

  /** The has callback: a missing cache is "not found", whatever error came with it. */
  function HasReply(hasCache: bool, error: CacheStorageError): (r: CacheStorageError)
    ensures !hasCache ==> r == ErrorNotFound
    ensures hasCache ==> r == error
  {
    if !hasCache then ErrorNotFound else error
  }

  /**
    Has on the storage of an origin, which may be missing; a missing
    storage reports "no cache" together with a storage error.
  */
  function Has<S>(storage: Option<S>, name: string, backend: HasBackend<S>): (r: CacheStorageError)
    ensures storage.None? ==> r == ErrorNotFound
    ensures storage.Some? && !backend(storage.value, name).0 ==> r == ErrorNotFound
    ensures r != ErrorNotFound ==> storage.Some? && backend(storage.value, name) == (true, r)
    ensures storage.Some? && backend(storage.value, name).0 ==> r == backend(storage.value, name).1
  {
    match storage
    case None => HasReply(false, ErrorStorage)
    case Some(s) =>
      var (hasCache, error) := backend(s, name);
      HasReply(hasCache, error)
  }

  /**
    An origin that may not use Cache Storage gets no storage, so it never
    finds a cache, whatever the backend would say.
  */
  lemma RefusedOriginFindsNothing<S>(hasContext: bool, hasManager: bool, origin: Origin,
                                     isSecure: Origin -> bool, open: Origin -> S,
                                     name: string, backend: HasBackend<S>)
    requires !OriginCanAccessCacheStorage(origin, isSecure)
    ensures Has(OpenCacheStorage(hasContext, hasManager, origin, isSecure, open), name, backend) == ErrorNotFound
  {
  }
}
