/** The usecase layer (internal/biz/review.go): the pre-checks and record
    assembly around the repository calls, and the normalised paged read.
    AppealReview and AuditAppeal are forwarded to the repository unchanged
    (Repo.AppealReview, Repo.AuditAppeal). */
module Usecase {
  import opened Wrappers
  import opened GoInt
  import opened Entities
  import opened Pagination
  import opened KeyCodec
  import opened ReadPath
  import Repo

  /** CreateReview: a failed order lookup is reported as DbFailed, an order that
      already has a review as OrderReviewed, and in both cases nothing is saved;
      otherwise the review gets the fresh id and is saved as given. */
  function CreateReview(s: Store, review: Review, freshId: int, faults: Faults): (t: Transition<Review>)
    ensures t.result.Failure? ==> t.after == s
    ensures faults.lookupFails ==> t.result == Failure(DbFailed)
    ensures (!faults.lookupFails && exists id | id in s.reviews :: s.reviews[id].orderId == review.orderId)
              ==> t.result == Failure(OrderReviewed(review.orderId))
    ensures t.result.Success? <==>
              && !faults.lookupFails && !faults.firstWriteFails
              && !(exists id | id in s.reviews :: s.reviews[id].orderId == review.orderId)
    ensures t.result.Success? ==>
              && t.result.value == review.(reviewId := freshId)
              && t.after.reviews == s.reviews[freshId := review.(reviewId := freshId)]
              && t.after.replies == s.replies && t.after.appeals == s.appeals
  {
    match Repo.GetReviewByOrderID(s, review.orderId, faults)
    case Failure(_) => Transition(Failure(DbFailed), s)
    case Success(ids) =>
      if |ids| > 0 then
        assert exists id | id in s.reviews :: s.reviews[id].orderId == review.orderId by {
          if forall id | id in s.reviews :: s.reviews[id].orderId != review.orderId {
            assert false;
          }
        }
        Transition(Failure(OrderReviewed(review.orderId)), s)
      else
        Repo.SaveReview(s, review.(reviewId := freshId), faults)
  }

  /** Creating reviews keeps one review per order and every review filed under
      its own id; with a fresh id and a review not yet flagged as replied (the
      service layer never sets the flag) it also keeps the reply bookkeeping. */
  lemma CreateReviewPreservesConsistency(s: Store, review: Review, freshId: int, faults: Faults)
    requires Repo.ReviewsConsistent(s) && Repo.RepliesConsistent(s)
    requires freshId !in s.reviews
    requires review.hasReply != 1
    ensures Repo.ReviewsConsistent(CreateReview(s, review, freshId, faults).after)
    ensures Repo.RepliesConsistent(CreateReview(s, review, freshId, faults).after)
  {
    var t := CreateReview(s, review, freshId, faults);
    if t.result.Success? {
      var a := t.after;
      forall id | id in a.reviews && a.reviews[id].hasReply == 1
        ensures Repo.HasReplyFor(a, id)
      {
        assert id != freshId && s.reviews[id].hasReply == 1;
        var r :| r in s.replies && s.replies[r].reviewId == id;
        assert a.replies[r].reviewId == id;
      }
    }
  }

  /** A second review for an order that already has one is refused and saves nothing. */
  lemma SecondReviewForOrderRefused(s: Store, first: Review, second: Review, id1: int, id2: int)
    requires CreateReview(s, first, id1, NoFaults).result.Success?
    requires second.orderId == first.orderId
    ensures var s1 := CreateReview(s, first, id1, NoFaults).after;
            CreateReview(s1, second, id2, NoFaults) == Transition(Failure(OrderReviewed(first.orderId)), s1)
  {
  }

  /** The reply CreateReply builds from its parameters and a fresh id. */
  function BuildReply(param: ReplyParam, freshId: int): (r: Reply)
    ensures r.replyId == freshId
    ensures r.reviewId == param.reviewId && r.storeId == param.storeId
    ensures r.content == param.content && r.picInfo == param.picInfo && r.videoInfo == param.videoInfo
  {
    Reply(freshId, param.reviewId, param.storeId, param.content, param.picInfo, param.videoInfo)
  }

  /** CreateReply: build the reply and save it through the reply transaction. */
  function CreateReply(s: Store, param: ReplyParam, freshId: int, faults: Faults): (t: Transition<Reply>)
    ensures t.result.Failure? ==> t.after == s
    ensures faults.lookupFails ==> t.result == Failure(StoreFailure)
    ensures (!faults.lookupFails && param.reviewId !in s.reviews) ==> t.result == Failure(RecordNotFound)
    ensures (!faults.lookupFails && param.reviewId in s.reviews && s.reviews[param.reviewId].hasReply == 1)
              ==> t.result == Failure(AlreadyReplied)
    ensures (&& !faults.lookupFails && param.reviewId in s.reviews && s.reviews[param.reviewId].hasReply != 1
             && s.reviews[param.reviewId].storeId != param.storeId)
              ==> t.result == Failure(Unauthorized)
    ensures t.result.Success? <==>
              && !faults.lookupFails && param.reviewId in s.reviews
              && s.reviews[param.reviewId].hasReply != 1
              && s.reviews[param.reviewId].storeId == param.storeId
              && !faults.firstWriteFails && !faults.secondWriteFails
    ensures t.result.Success? ==>
              && t.result.value == BuildReply(param, freshId)
              && t.after.replies == s.replies[freshId := BuildReply(param, freshId)]
              && t.after.reviews.Keys == s.reviews.Keys
              && t.after.reviews[param.reviewId] == s.reviews[param.reviewId].(hasReply := 1)
              && (forall id | id in s.reviews && id != param.reviewId :: t.after.reviews[id] == s.reviews[id])
              && t.after.appeals == s.appeals
  {
    Repo.SaveReply(s, BuildReply(param, freshId), faults)
  }

  /** ListReviewByStoreID: normalise page and size, then read the window
      (storeID, (page-1)*size, size); the repository's list or error is the answer. */
  function ListReviewByStoreID(storeId: int, page: int, size: int, env: ReadEnv): (r: Read)
    requires IsInt64(storeId) && IsInt64(page) && IsInt64(size)
    ensures r.fetch == FetchPage(FormatKey(storeId, Paginate(page, size).offset, Paginate(page, size).limit),
                                 env.get, env.search, env.put)
    ensures r.fetch.result.Failure? ==> r.result == Failure(r.fetch.result.error)
    ensures (r.fetch.result.Success? && env.envelope(r.fetch.result.value).None?)
              ==> r.result == Failure(DecodeFailure)
    ensures r.result.Success? <==>
              r.fetch.result.Success? && env.envelope(r.fetch.result.value).Some?
    ensures r.result.Success? ==>
              r.result.value == KeepParsed(env.envelope(r.fetch.result.value).value, env.parse)
    ensures env.get.Hit? ==> r.fetch.searched == None && r.fetch.written == None
    ensures env.get.GetFailed? ==> r.result == Failure(CacheFailure)
  {
    var w := Paginate(page, size);
    ReadPage(storeId, w.offset, w.limit, env)
  }

  /** Page 0 and negative pages read exactly what page 1 reads. */
  lemma ListPageBelowOneIsPageOne(storeId: int, page: int, size: int, env: ReadEnv)
    requires IsInt64(storeId) && IsInt64(page) && IsInt64(size)
    requires page <= 0
    ensures ListReviewByStoreID(storeId, page, size, env) == ListReviewByStoreID(storeId, 1, size, env)
  {
  }

  /** Every size outside 1..50 reads exactly what size 10 reads. */
  lemma ListSizeOutOfRangeIsDefault(storeId: int, page: int, size: int, env: ReadEnv)
    requires IsInt64(storeId) && IsInt64(page) && IsInt64(size)
    requires size <= 0 || size > MaxSize
    ensures ListReviewByStoreID(storeId, page, size, env) == ListReviewByStoreID(storeId, page, DefaultSize, env)
  {
  }

  /** When the offset product fits in int64, a cache miss asks the index for at
      most 50 records of this store, starting at (page-1)*size of the normalised
      page and size. */
  lemma ListMissSearchesNormalizedWindow(storeId: int, page: int, size: int, env: ReadEnv)
    requires IsInt64(storeId) && IsInt64(page) && IsInt64(size)
    requires OffsetFits(page, size)
    requires env.get.Miss?
    ensures var q := ListReviewByStoreID(storeId, page, size, env).fetch.searched;
            && q.Some?
            && q.value.index == KeyIndex
            && Atoi(q.value.storeFilter) == Success(storeId)
            && 1 <= q.value.size <= MaxSize
            && q.value.size == NormalizeSize(size)
            && q.value.from == (NormalizePage(page) - 1) * NormalizeSize(size)
            && 0 <= q.value.from
  {
    var w := Paginate(page, size);
    MissSearchesThePage(storeId, w.offset, w.limit, env);
    KeyRoundTrip(storeId, w.offset, w.limit);
  }
}
