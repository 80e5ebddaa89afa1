/** The records of the review service, the errors its operations report, and the
    abstract durable store the write path acts on. */
module Entities {
  import opened Wrappers

  newtype byte = x: int | 0 <= x < 256
  type Bytes = seq<byte>

  /** Review lifecycle values used by the write path. */
  const ReviewHidden: int := 40
  /** Appeal lifecycle: 10 is pending; anything above it has been audited. */
  const AppealPending: int := 10
  const AppealApproved: int := 20

  datatype Review = Review(
    reviewId: int,
    userId: int,
    orderId: int,
    storeId: int,
    score: int,
    serviceScore: int,
    expressScore: int,
    content: string,
    picInfo: string,
    videoInfo: string,
    anonymous: int,
    status: int,
    hasReply: int)

  datatype Reply = Reply(
    replyId: int,
    reviewId: int,
    storeId: int,
    content: string,
    picInfo: string,
    videoInfo: string)

  datatype Appeal = Appeal(
    appealId: int,
    reviewId: int,
    storeId: int,
    status: int,
    reason: string,
    content: string,
    picInfo: string,
    videoInfo: string,
    opUser: string)

  /** Parameter records handed from the service layer to the usecase. */
  datatype ReplyParam = ReplyParam(
    reviewId: int,
    storeId: int,
    content: string,
    picInfo: string,
    videoInfo: string)

  datatype AppealParam = AppealParam(
    reviewId: int,
    storeId: int,
    reason: string,
    content: string,
    picInfo: string,
    videoInfo: string,
    opUser: string)

  datatype AuditAppealParam = AuditAppealParam(
    reviewId: int,
    appealId: int,
    opUser: string,
    status: int)

  /** Every failure an operation of the core can report. */
  datatype Error =
    | DbFailed                 // order lookup failed while creating a review
    | OrderReviewed(orderId: int)
    | RecordNotFound           // the store's "not found" signal
    | AlreadyReplied
    | Unauthorized             // a store replying to another store's review
    | AppealAlreadyAudited
    | StoreFailure             // any other durable-store failure
    | CacheFailure             // cache read failed with something other than "missing"
    | CacheSetFailure
    | SearchFailure
    | InvalidKey
    | NumSyntax
    | NumRange
    | DecodeFailure

  /** The durable store: reviews by review id, replies by reply id, and appeals by
      review id (the appeal table's unique conflict column). */
  datatype Store = Store(
    reviews: map<int, Review>,
    replies: map<int, Reply>,
    appeals: map<int, Appeal>)

  /** Which durable-store call fails in one run of an operation: the lookup, the
      first write, or the second write of a transaction. */
  datatype Faults = Faults(lookupFails: bool, firstWriteFails: bool, secondWriteFails: bool)

  const NoFaults := Faults(false, false, false)

  /** An operation's answer together with the store it leaves behind. */
  datatype Transition<T> = Transition(result: Result<T, Error>, after: Store)
}
