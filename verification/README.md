# review-service core, modelled in Dafny

This project models the core of a review service: customers review orders, merchants
reply to reviews and appeal them, and operators audit appeals. Reads list a store's
reviews page by page through a cache.

The model has two layers.

- **Usecase** (`internal/biz/review.go`). This layer runs the pre-checks and builds the
  records for creating reviews and replies. It also normalises page and size for the
  paged read.
- **Repository** (`internal/data/review.go`). This layer holds the write-path transitions
  (`SaveReply`, `AppealReview`, `AuditAppeal`) and the cached read path. The read path
  builds the cache key, parses it back into an index query, runs the cache-aside closure
  that the coalescing group executes, and decodes the hits.

The durable store is an immutable value `Store`. It holds three maps:

- reviews, keyed by review id;
- replies, keyed by reply id;
- appeals, keyed by review id, which is the column the appeal upsert conflicts on.

Each write operation is a pure function `(store, param, faults) → Transition(result, store')`.
An operation that draws a new id (CreateReview, CreateReply, AppealReview) also takes it
as a parameter `freshId`.
`faults` says which store call fails: the lookup, the first write or the second write of
a transaction. A failed transaction returns the original store unchanged.

The read path takes its external outcomes as values:

- the cache read: `Hit(bytes)`, `Miss` or `GetFailed`;
- the index query;
- the cache write.

The envelope and per-hit JSON decoders are function parameters. A `Fetch` record
reports which index query and which cache write were issued.

Go's `int` is modelled as int64 (module `GoInt`). The pagination offset is computed with
explicit two's-complement wrap-around. `%d` formatting and `strconv.Atoi` are written out
over decimal digits. `strings.Split` is written out over characters, together with its
inverse `Join`.

Modules: `Wrappers`, `GoInt`, `Entities` (records, errors, store), `Pagination`,
`KeyCodec`, `Repo`, `ReadPath`, `Usecase`.

Where the intended design and the code differ, the model follows the code:

- A failed cache write fails the whole read. The coalesced closure returns the index
  data together with the cache write's error (internal/data/review.go:293).
  `getDataBySingleflight` then returns nil with that error (:301-302), and `getData2`
  returns on it (:250-252).
- Creating a review reports a failed order lookup as `DbFailed` and an existing review as
  `OrderReviewed`.
- The appeal lookup filters on review id and store id, but the upsert conflicts on review
  id alone (see Findings).
- `AuditAppeal` does not check that the audited appeal belongs to the review it hides.
  Both updates are plain UPDATEs by id. An id that matches nothing changes nothing and is
  not an error.

## Model

| member | source | states |
|---|---|---|
| Pagination.Paginate | internal/biz/review.go:96-104 | the limit is in 1..50; it equals size when size is in 1..50 and is exactly 10 otherwise; the offset is an int64; when the product fits, offset = (page'-1)*limit ≥ 0, a multiple of the limit |
| Pagination.NormalizeIdempotent | internal/biz/review.go:97-102 | a page ≥ 1 and a size in 1..50 are left unchanged, so normalising an already normalised pair changes nothing; a normalised page is ≥ 1 and a normalised size is in 1..50 |
| Pagination.PageBelowOneIsPageOne | internal/biz/review.go:97-99 | page 0 and negative pages give the same window as page 1, with offset 0 |
| Pagination.SizeOutOfRangeIsDefault | internal/biz/review.go:100-102 | every size ≤ 0 or > 50 gives the same window as size 10 |
| Pagination.Int32PagesFit | internal/biz/review.go:103 | for every page an int32 can hold, (page'-1)*size' does not overflow int64 |
| Pagination.ConsecutivePagesAdjacent | internal/biz/review.go:103-104 | for page ≥ 1, when page+1's offset product fits in int64, page+1 starts exactly where page ends (offset + limit), so pages tile the list |
| Pagination.HugePageOffsetWraps | internal/biz/review.go:103 | page 2^62+1 with size 10 wraps to the negative offset -2^63, as Go's int multiplication does |
| KeyCodec.Atoi | internal/data/review.go:331-338 | succeeds iff the text is an optional sign followed by at least one decimal digit and its value fits in int64, and then returns that signed value. A signed decimal outside int64 is a range error, and so is a leading digit run above uint64 even when junk follows it. Every other failure, the empty text included, is a syntax error |
| KeyCodec.Itoa | internal/data/review.go:248 | %d output is never empty, never contains ':', starts with '-' exactly for negative values, and Atoi reads every int64 back from it |
| KeyCodec.FormatKey | internal/data/review.go:248 | the key has exactly three ':' and splits into "review" and the decimal texts of store id, offset and limit |
| KeyCodec.OverflowBeforeJunkIsRange | internal/data/review.go:331-338 | a digit run above uint64 followed by a non-digit is a range error, not a syntax error, because strconv scans left to right |
| KeyCodec.ItoaInjective | internal/data/review.go:248 | distinct int64 values print as distinct decimal strings |
| KeyCodec.Split | internal/data/review.go:323 | Split gives at least one piece, and no piece contains the separator |
| KeyCodec.SplitLength | internal/data/review.go:323-326 | Split gives exactly one more piece than there are separators |
| KeyCodec.JoinSplit | internal/data/review.go:323 | joining the pieces of a split with the separator gives back the original string |
| KeyCodec.SplitJoin | internal/data/review.go:323 | splitting a join of separator-free pieces gives back the pieces |
| KeyCodec.ParseKey | internal/data/review.go:321-338 | "invalid key" exactly when the key has fewer than 3 ':'; every other failure is an Atoi error; the parsed from/size are int64 |
| KeyCodec.KeyRoundTrip | internal/data/review.go:248 | parsing review:%d:%d:%d recovers index "review", the store id's decimal text (which Atoi reads back as the store id), and the offset and limit |
| KeyCodec.FormatKeyInjective | internal/data/review.go:248 | two different (store, offset, limit) triples never share a cache/coalescing key |
| Repo.GetReviewByOrderID | internal/data/review.go:47-52 | the lookup fails only on a store failure; otherwise it returns exactly the ids of reviews with that order id |
| Repo.SaveReview | internal/data/review.go:39-44 | a failed save changes nothing; a successful one stores the review under its id and leaves every other record unchanged |
| Repo.SaveReply | internal/data/review.go:55-98 | checks run in order (lookup failure, missing review, already replied, other store) and none of them writes; success holds iff all pass and both transaction steps succeed; then the reply is inserted and only that review's hasReply becomes 1; any failure leaves the store unchanged |
| Repo.SaveReplyPreservesConsistency | internal/data/review.go:59-97 | with a fresh reply id, both directions still hold: every reply points at a review of its own store with hasReply = 1, at most one reply per review, and every review with hasReply = 1 has a reply |
| Repo.SecondReplyRefused | internal/data/review.go:66-68 | a second reply to a review that was just replied to fails with AlreadyReplied and changes nothing |
| Repo.ReusedReplyIdOrphansFlag | internal/data/review.go:80-82 | in the model, where Save replaces by reply id, a reused id replaces the old reply and leaves its review flagged with no reply, so the fresh-id requirement above cannot be dropped |
| Repo.FindAppeal | internal/data/review.go:103-107 | an appeal is found iff one is stored for the review id with the same store id |
| Repo.NewAppeal | internal/data/review.go:128-136 | the upserted record is pending (10), carries the param's review, store, reason, content and media, and has an empty operator |
| Repo.Upsert | internal/data/review.go:142-156 | a new review id inserts the appeal; an existing one overwrites only status, content, reason, pic_info and video_info, and keeps appeal_id, store_id and op_user; other appeals are untouched |
| Repo.AppealReview | internal/data/review.go:101-159 | fails with no write on a lookup error or when the found appeal's status is > 10; success iff neither happens and the upsert succeeds; then it returns a pending appeal whose id is the found one or the fresh one, and the upsert is applied; reviews and replies are untouched |
| Repo.AppealReviewResetsAuditedAppeal | internal/data/review.go:103-156 | a concrete store where another store's filing resets an approved appeal to pending and gets back an appeal id that is not stored |
| Repo.AppealReviewKeepsAppealsKeyed | internal/data/review.go:142-156 | after an appeal filing there is still at most one appeal per review, filed under that review |
| Repo.RefilePendingKeepsAppealId | internal/data/review.go:115-154 | re-filing a pending appeal of the same store succeeds, keeps its appeal id and overwrites its content |
| Repo.FindAppealByReview | internal/data/review.go:146 | the corrected lookup finds the appeal stored under the review id, the upsert's conflict column |
| Repo.AppealReviewKeyed | internal/data/review.go:101-159 | the corrected filing. A lookup fault is StoreFailure, and an audited appeal for the review, whichever store filed it, is AppealAlreadyAudited. It succeeds iff neither applies and the write succeeds. It then returns the pending appeal carrying the stored appeal id or the fresh one, applies the upsert, and leaves reviews and replies untouched. A failure changes nothing |
| Repo.KeyedAgreesWithinStore | internal/data/review.go:103-156 | when no appeal is filed for the review, or the filed one belongs to the same store, the corrected and the as-written filing give the same result and store: the correction only changes the cross-store case |
| Repo.KeyedAuditedAppealIsTerminal | internal/data/review.go:115-117 | with the corrected lookup, any filing against an audited appeal is refused and changes nothing |
| Repo.KeyedAppealIdIsStored | internal/data/review.go:137-141 | with the corrected lookup, the returned appeal id is the one stored for the review, the stored appeal is pending, and a new appeal gets the fresh id |
| Repo.SetAuditResult | internal/data/review.go:167-175 | every appeal with the audited id gets the new status and op_user; all other appeals are unchanged |
| Repo.HideReview | internal/data/review.go:177-183 | the review with the id gets status 40; an absent id changes nothing; other reviews are unchanged |
| Repo.AuditAppeal | internal/data/review.go:163-187 | success iff the appeal update succeeds and, for status 20, the review update too; on success the appeal is updated, and the review is hidden iff status is 20, otherwise reviews are untouched; any failure leaves the store unchanged |
| Repo.AuditHidesReviewIffApproved | internal/data/review.go:177-183 | for a review that exists and is not yet hidden, a successful audit hides it iff the audit approved the appeal (status 20); after a failed audit neither table changed |
| Repo.AuditAppealPreservesConsistency | internal/data/review.go:165-186 | an audit keeps the reply, review and appeal invariants |
| ReadPath.SearchByKey | internal/data/review.go:321-357 | a key that does not parse never reaches the index; otherwise the index is asked for exactly the parsed request and its bytes are the answer |
| ReadPath.FetchPage | internal/data/review.go:280-299 | on a hit it returns the bytes with no search and no write; on any other cache error it fails with no search; on a miss it searches and writes the result under the key with TTL 10; it succeeds iff hit, or miss + parsable key + search success + cache write success |
| ReadPath.KeepParsedAppend | internal/data/review.go:265-272 | decoding concatenated hits decodes each part in turn, so the hits keep their order |
| ReadPath.KeepParsedLength | internal/data/review.go:265-272 | the page has exactly one record per hit that decodes |
| ReadPath.KeepParsedMembers | internal/data/review.go:265-272 | a record is in the page iff some hit decodes to it |
| ReadPath.KeepParsedAllDecode | internal/data/review.go:265-272 | when every hit decodes, the page is the decoded hits one for one |
| ReadPath.DecodeHits | internal/data/review.go:265-273 | the loop keeps exactly the hits that decode, in their original order |
| ReadPath.ReadPage | internal/data/review.go:241-274 | a closure error is the read's error; an envelope that fails to decode is a hard DecodeFailure; otherwise the page is the decoded hits |
| ReadPath.HitSkipsSearch | internal/data/review.go:282-286 | a cache hit issues no index query and no cache write |
| ReadPath.MissSearchesThePage | internal/data/review.go:288-295 | on a miss the index is asked for ("review", store id, offset, limit); the result is cached under the key for 10 s; a failed cache write or search fails the read |
| ReadPath.CacheErrorNotAmplified | internal/data/review.go:297-298 | a cache error other than a miss fails the read with no index query |
| ReadPath.RefilledEntryServesSamePage | internal/data/review.go:282-293 | a successful miss writes the page under its own key, and a later hit on that entry returns the same bytes with no index query or cache write |
| Usecase.CreateReview | internal/biz/review.go:42-64 | a lookup failure gives DbFailed and an existing review for the order gives OrderReviewed, with no save in either case; success iff neither happens and the save succeeds, and then the saved record is the input with only reviewId set to the fresh id |
| Usecase.CreateReviewPreservesConsistency | internal/biz/review.go:47-63 | with a fresh id, creating a review keeps at most one review per order. For a review not yet flagged as replied (service/review.go never sets the flag) it also keeps both directions of the reply invariant |
| Usecase.SecondReviewForOrderRefused | internal/biz/review.go:47-55 | a second review for the same order is refused with OrderReviewed and saves nothing |
| Usecase.BuildReply | internal/biz/review.go:70-77 | the reply carries the fresh reply id and the param's review id, store id, content and media |
| Usecase.CreateReply | internal/biz/review.go:67-79 | the outcome is the reply transaction's on the built reply: lookup failure, missing review, already replied and other store are refused in that order with no change. Success holds iff none applies and both writes succeed. Then only the built reply is added, only that review's hasReply becomes 1, and appeals are untouched |
| Usecase.ListPageBelowOneIsPageOne | internal/biz/review.go:97-99 | a listing with page ≤ 0 reads exactly what page 1 reads, with the same result or error |
| Usecase.ListSizeOutOfRangeIsDefault | internal/biz/review.go:100-102 | a listing with size ≤ 0 or > 50 reads exactly what size 10 reads |
| Usecase.ListReviewByStoreID | internal/biz/review.go:96-113 | reads the key built from the normalised window. The read's error is returned unchanged and an undecodable envelope gives DecodeFailure. Otherwise the list is exactly the decoded hits. A hit issues no index query or cache write, and a cache error gives CacheFailure |
| Usecase.ListMissSearchesNormalizedWindow | internal/biz/review.go:103-108 | when (page'-1)*size' fits in int64, a cache miss asks the index for this store, from offset (page'-1)*size' ≥ 0, for size' (in 1..50) records |

## Left out

- Request coalescing (`singleflight.Group`, internal/data/review.go:238, 280). This is
  concurrency. Only the closure body is modelled, as the sequential function
  `ReadPath.FetchPage`.
- The Redis, Elasticsearch and GORM clients, their transaction machinery and context
  deadlines. These are I/O. They are replaced by the store value, the `Faults` record and
  the cache/search/set outcome values.
- The index query's content. The search outcome is an input value, so the model does not
  relate the returned hits to the request it records.
- JSON marshalling and unmarshalling of the hits envelope and of each hit, including
  `MyTime.UnmarshalJSON` with `time.Parse`. These are foreign library code. They are the
  function parameters `envelope` and `parse`.
- Repo.ReusedReplyIdOrphansFlag / Repo.SaveReview: replies are modelled as keyed by reply
  id and reviews by review id, so GORM's Save on a stored id is a replacement. The source
  does not show the tables' primary keys. With a surrogate key, a reused id would instead
  fail on a unique index or add a second row. With fresh snowflake ids the case does not
  arise, and the preservation lemmas require fresh ids.
- `snowflake.GenID`. It is an ID oracle, so fresh ids are parameters. Uniqueness is
  assumed only where a lemma states it (`freshId !in s.reviews`).
- TTL expiry over wall-clock time. Only the 10-second TTL recorded with each cache write
  is modelled.
- `getdata1` (internal/data/review.go:196-236). It is dead code: `ListReviewByStoreID`
  calls `getData2`.
- internal/service/review.go and internal/server/server.go. These are protocol mapping
  and service registration.
- Debug prints and logging.
- The usecase's `AppealReview` and `AuditAppeal`. They forward their parameters unchanged
  (internal/biz/review.go:82-91), so they are `Repo.AppealReview` and `Repo.AuditAppeal`.
- The record returned together with an error by `SaveReview` (internal/data/review.go:43),
  `SaveReply` (:97) and `AppealReview` (:158). Callers check the error first, so the model
  returns only the error.
- Interleaving of concurrent writes. Each write operation is modelled as one atomic step
  of the store. In the source, three steps run separately:
  - `SaveReply`'s checks (internal/data/review.go:59-74) run before its transaction (:78);
  - `CreateReview`'s order lookup and its save (internal/biz/review.go:47-63);
  - `AppealReview`'s lookup and its upsert (internal/data/review.go:103-156).

  So the refusals and invariants these affect hold for serialised calls only:
  `Repo.SecondReplyRefused`, `Usecase.SecondReviewForOrderRefused`, one reply per review,
  and one review per order.
- ReadPath.ReadPage: `getData2` sizes its list with the envelope's `Total.Value`
  (internal/data/review.go:262). `Total` is a pointer, so an envelope without a total
  makes the read panic. The model assumes the index always reports a total and returns
  the decoded page.
- The order of records returned by `GetReviewByOrderID`. Only whether it is empty is used,
  so the lookup returns a set of ids.
- Pagination.Paginate: `offset >= 0` and `offset = (page'-1)*limit` are proved only when
  the product fits in int64 (`OffsetFits`). Beyond that the model reproduces Go's
  wrap-around (`Pagination.HugePageOffsetWraps`). Every int32 page fits
  (`Pagination.Int32PagesFit`).

## Findings

| source | as written | input that shows it | evidently intended | confidence | as-written member | corrected member |
|---|---|---|---|---|---|---|
| internal/data/review.go:103-156 | the existing-appeal lookup filters on (review_id, store_id), but the upsert conflicts on review_id alone | an approved appeal {appeal 100, review 7, store 1, status 20}; store 2 files an appeal for review 7. The lookup finds nothing, a fresh id 555 is used, and the conflict overwrites the approved appeal back to status 10 while keeping appeal id 100. The caller is told 555. | the lookup uses the conflict column, so an audited appeal stays terminal and the returned id is the stored one | medium (assumes review_id is a unique key of the appeal table); not executed | Repo.AppealReviewResetsAuditedAppeal | Repo.AppealReviewKeyed |
