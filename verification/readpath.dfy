/** The cached read of one page of a store's reviews (internal/data/review.go,
    getData2 and the body of the coalesced closure in getDataBySingleflight):
    try the cache; on a miss ask the search index and refill the cache; then
    decode the hits, skipping the ones that do not parse. The cache, the index
    and the JSON decoders are inputs: their outcomes are values and functions. */
module ReadPath {
  import opened Wrappers
  import opened GoInt
  import opened Entities
  import opened KeyCodec

  /** Expiry of a refilled cache entry, in seconds. */
  const CacheTtlSeconds: nat := 10

  /** Outcome of the cache read: bytes, the "no such key" signal, or any other error. */
  datatype CacheGet = Hit(data: Bytes) | Miss | GetFailed
  /** Outcome of the index query (already serialised to bytes). */
  datatype SearchReply = Found(data: Bytes) | SearchFailed
  /** Outcome of the cache write. */
  datatype SetReply = Stored | SetFailed

  datatype CacheWrite = CacheWrite(key: string, data: Bytes, ttlSeconds: nat)

  /** One run of the closure: its answer, the index query it issued (if any) and
      the cache write it issued (if any). */
  datatype Fetch = Fetch(result: Result<Bytes, Error>, searched: Option<SearchRequest>, written: Option<CacheWrite>)

  /** getDataFromES: a key that does not parse never reaches the index. */
  function SearchByKey(key: string, search: SearchReply): (f: Fetch)
    ensures f.written == None
    ensures f.searched.Some? <==> ParseKey(key).Success?
    ensures f.searched.Some? ==> f.searched.value == ParseKey(key).value
    ensures f.result.Success? <==> ParseKey(key).Success? && search.Found?
    ensures f.result.Success? ==> f.result.value == search.data
  {
    match ParseKey(key)
    case Failure(e) => Fetch(Failure(e), None, None)
    case Success(request) =>
      match search
      case Found(data) => Fetch(Success(data), Some(request), None)
      case SearchFailed => Fetch(Failure(SearchFailure), Some(request), None)
  }

  /** The closure run under the coalescing group for one key. */
  function FetchPage(key: string, get: CacheGet, search: SearchReply, put: SetReply): (f: Fetch)
    ensures get.Hit? ==> f == Fetch(Success(get.data), None, None)
    ensures get.GetFailed? ==> f == Fetch(Failure(CacheFailure), None, None)
    ensures get.Miss? ==> f.searched == SearchByKey(key, search).searched
    ensures f.written.Some? <==> get.Miss? && ParseKey(key).Success? && search.Found?
    ensures f.written.Some? ==> f.written.value == CacheWrite(key, search.data, CacheTtlSeconds)
    ensures f.result.Success? <==>
              get.Hit? || (get.Miss? && ParseKey(key).Success? && search.Found? && put.Stored?)
    ensures get.Miss? && f.result.Success? ==> f.result.value == search.data
    ensures (get.Miss? && search.Found? && ParseKey(key).Success? && put.SetFailed?)
              ==> f.result == Failure(CacheSetFailure)
  {
    match get
    case Hit(data) => Fetch(Success(data), None, None)
    case GetFailed => Fetch(Failure(CacheFailure), None, None)
    case Miss =>
      var fromIndex := SearchByKey(key, search);
      if fromIndex.result.Failure? then fromIndex
      else
        // the data is returned together with the cache write's error, and the
        // caller fails on any error
        var write := Some(CacheWrite(key, fromIndex.result.value, CacheTtlSeconds));
        match put
        case Stored => Fetch(fromIndex.result, fromIndex.searched, write)
        case SetFailed => Fetch(Failure(CacheSetFailure), fromIndex.searched, write)
  }

  // ------------------------------------------------------------ decoding

  /** Reference meaning of the per-hit loop: the decoded hits, in order. */
  function KeepParsed(hits: seq<Bytes>, parse: Bytes -> Option<Review>): seq<Review> {
    if |hits| == 0 then []
    else
      match parse(hits[0])
      case Some(x) => [x] + KeepParsed(hits[1..], parse)
      case None => KeepParsed(hits[1..], parse)
  }

  /** Number of hits that decode. */
  function ParsableCount(hits: seq<Bytes>, parse: Bytes -> Option<Review>): nat {
    if |hits| == 0 then 0
    else (if parse(hits[0]).Some? then 1 else 0) + ParsableCount(hits[1..], parse)
  }

  /** Decoding a concatenation decodes each part in turn: the order of hits is kept. */
  lemma {:induction false} KeepParsedAppend(a: seq<Bytes>, b: seq<Bytes>, parse: Bytes -> Option<Review>)
    ensures KeepParsed(a + b, parse) == KeepParsed(a, parse) + KeepParsed(b, parse)
  {
    if |a| == 0 {
      assert a + b == b;
    } else {
      assert (a + b)[0] == a[0];
      assert (a + b)[1..] == a[1..] + b;
      KeepParsedAppend(a[1..], b, parse);
    }
  }

  /** Exactly one record per hit that decodes. */
  lemma {:induction false} KeepParsedLength(hits: seq<Bytes>, parse: Bytes -> Option<Review>)
    ensures |KeepParsed(hits, parse)| == ParsableCount(hits, parse) <= |hits|
  {
    if |hits| > 0 {
      KeepParsedLength(hits[1..], parse);
    }
  }

  /** A record is in the page exactly when some hit decodes to it. */
  lemma {:induction false} KeepParsedMembers(hits: seq<Bytes>, parse: Bytes -> Option<Review>, x: Review)
    ensures x in KeepParsed(hits, parse) <==> exists i | 0 <= i < |hits| :: parse(hits[i]) == Some(x)
  {
    if |hits| > 0 {
      KeepParsedMembers(hits[1..], parse, x);
      if exists i | 0 <= i < |hits| :: parse(hits[i]) == Some(x) {
        var i :| 0 <= i < |hits| && parse(hits[i]) == Some(x);
        if i > 0 {
          assert parse(hits[1..][i - 1]) == Some(x);
        }
      }
      if exists j | 0 <= j < |hits| - 1 :: parse(hits[1..][j]) == Some(x) {
        var j :| 0 <= j < |hits| - 1 && parse(hits[1..][j]) == Some(x);
        assert parse(hits[j + 1]) == Some(x);
      }
    }
  }

  /** When every hit decodes, the page is the decoded hits one for one. */
  lemma {:induction false} KeepParsedAllDecode(hits: seq<Bytes>, parse: Bytes -> Option<Review>)
    requires forall i | 0 <= i < |hits| :: parse(hits[i]).Some?
    ensures |KeepParsed(hits, parse)| == |hits|
    ensures forall i | 0 <= i < |hits| :: KeepParsed(hits, parse)[i] == parse(hits[i]).value
  {
    if |hits| > 0 {
      assert forall i | 0 <= i < |hits| - 1 :: hits[1..][i] == hits[i + 1];
      KeepParsedAllDecode(hits[1..], parse);
    }
  }

  /** The per-hit loop of getData2: a hit that fails to decode is skipped. */
  method DecodeHits(hits: seq<Bytes>, parse: Bytes -> Option<Review>) returns (list: seq<Review>)
    ensures list == KeepParsed(hits, parse)
  {
    list := [];
    var i := 0;
    while i < |hits|
      invariant 0 <= i <= |hits|
      invariant list == KeepParsed(hits[..i], parse)
    {
      KeepParsedAppend(hits[..i], [hits[i]], parse);
      assert hits[..i + 1] == hits[..i] + [hits[i]];
      match parse(hits[i]) {
        case Some(record) =>
          list := list + [record];
        case None =>
      }
      i := i + 1;
    }
    assert hits[..i] == hits;
  }

  // ------------------------------------------------------------ one page

  /** Outcomes of everything a page read talks to. */
  datatype ReadEnv = ReadEnv(
    get: CacheGet,
    search: SearchReply,
    put: SetReply,
    envelope: Bytes -> Option<seq<Bytes>>,
    parse: Bytes -> Option<Review>)

  datatype Read = Read(result: Result<seq<Review>, Error>, fetch: Fetch)

  /** getData2: build the key, run the closure, decode the hits envelope (a hard
      error when it fails) and then each hit (skipped when it fails). */
  function ReadPage(storeId: int, offset: int, limit: int, env: ReadEnv): (r: Read)
    ensures r.fetch == FetchPage(FormatKey(storeId, offset, limit), env.get, env.search, env.put)
    ensures r.result.Success? <==>
              r.fetch.result.Success? && env.envelope(r.fetch.result.value).Some?
    ensures r.fetch.result.Failure? ==> r.result == Failure(r.fetch.result.error)
    ensures (r.fetch.result.Success? && env.envelope(r.fetch.result.value).None?)
              ==> r.result == Failure(DecodeFailure)
    ensures r.result.Success? ==>
              r.result.value == KeepParsed(env.envelope(r.fetch.result.value).value, env.parse)
  {
    var fetch := FetchPage(FormatKey(storeId, offset, limit), env.get, env.search, env.put);
    match fetch.result
    case Failure(e) => Read(Failure(e), fetch)
    case Success(bytes) =>
      match env.envelope(bytes)
      case None => Read(Failure(DecodeFailure), fetch)
      case Some(hits) => Read(Success(KeepParsed(hits, env.parse)), fetch)
  }

  /** A cache hit answers from the cache alone: no index query, no cache write. */
  lemma HitSkipsSearch(storeId: int, offset: int, limit: int, env: ReadEnv)
    requires env.get.Hit?
    ensures ReadPage(storeId, offset, limit, env).fetch.searched == None
    ensures ReadPage(storeId, offset, limit, env).fetch.written == None
    ensures env.envelope(env.get.data).Some? ==>
              ReadPage(storeId, offset, limit, env).result
                == Success(KeepParsed(env.envelope(env.get.data).value, env.parse))
  {
  }

  /** On a miss the index is asked for exactly the page in the key, and what it
      returns is written back under that key for CacheTtlSeconds. */
  lemma MissSearchesThePage(storeId: int, offset: int, limit: int, env: ReadEnv)
    requires IsInt64(storeId) && IsInt64(offset) && IsInt64(limit)
    requires env.get.Miss?
    ensures ReadPage(storeId, offset, limit, env).fetch.searched
              == Some(SearchRequest(KeyIndex, Itoa(storeId), offset, limit))
    ensures env.search.Found? ==>
              ReadPage(storeId, offset, limit, env).fetch.written
                == Some(CacheWrite(FormatKey(storeId, offset, limit), env.search.data, CacheTtlSeconds))
    ensures env.search.Found? && env.put.SetFailed? ==>
              ReadPage(storeId, offset, limit, env).result == Failure(CacheSetFailure)
    ensures env.search.SearchFailed? ==>
              ReadPage(storeId, offset, limit, env).result == Failure(SearchFailure)
  {
    KeyRoundTrip(storeId, offset, limit);
  }

  /** A cache failure other than a miss fails the read without reaching the index. */
  lemma CacheErrorNotAmplified(storeId: int, offset: int, limit: int, env: ReadEnv)
    requires env.get.GetFailed?
    ensures ReadPage(storeId, offset, limit, env).result == Failure(CacheFailure)
    ensures ReadPage(storeId, offset, limit, env).fetch.searched == None
  {
  }

  /** A successful miss writes the page under its own key, and a later hit on
      that entry serves the same bytes without asking the index again. */
  lemma RefilledEntryServesSamePage(key: string, search: SearchReply, put: SetReply,
                                    laterSearch: SearchReply, laterPut: SetReply)
    requires FetchPage(key, Miss, search, put).result.Success?
    ensures var f := FetchPage(key, Miss, search, put);
            && f.written.Some? && f.written.value.key == key
            && FetchPage(key, Hit(f.written.value.data), laterSearch, laterPut)
                 == Fetch(f.result, None, None)
  {
  }
}
