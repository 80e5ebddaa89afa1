/** The write path of the repository layer (internal/data/review.go): each
    operation maps a store, its parameters and the outcome of its store calls to
    a result and the store it leaves behind. A transaction's failure leaves the
    store exactly as it was. */
module Repo {
  import opened Wrappers
  import opened Entities

  // ------------------------------------------------------------ invariants

  /** Every reply is filed under its own id, points at an existing review of the
      same store that is flagged as replied, and no review has two replies; and
      every review flagged as replied has a reply. */
  ghost predicate RepliesConsistent(s: Store) {
    && (forall id | id in s.reviews && s.reviews[id].hasReply == 1 :: HasReplyFor(s, id))
    && (forall id | id in s.replies ::
          && s.replies[id].replyId == id
          && s.replies[id].reviewId in s.reviews
          && s.reviews[s.replies[id].reviewId].hasReply == 1
          && s.reviews[s.replies[id].reviewId].storeId == s.replies[id].storeId)
    && (forall a, b | a in s.replies && b in s.replies && s.replies[a].reviewId == s.replies[b].reviewId :: a == b)
  }

  ghost predicate HasReplyFor(s: Store, reviewId: int) {
    exists id | id in s.replies :: s.replies[id].reviewId == reviewId
  }

  /** Reviews are filed under their own id, and no two share an order. */
  ghost predicate ReviewsConsistent(s: Store) {
    && (forall id | id in s.reviews :: s.reviews[id].reviewId == id)
    && (forall a, b | a in s.reviews && b in s.reviews && s.reviews[a].orderId == s.reviews[b].orderId :: a == b)
  }

  /** Appeals are filed under the review they appeal: one per review. */
  ghost predicate AppealsKeyed(s: Store) {
    forall rid | rid in s.appeals :: s.appeals[rid].reviewId == rid
  }

  /** The outcome of a transaction: nothing of `staged` is visible unless it committed. */
  function Commit<T>(s: Store, staged: Store, failed: bool, value: T): Transition<T> {
    if failed then Transition(Failure(StoreFailure), s) else Transition(Success(value), staged)
  }

  // ------------------------------------------------------------ reviews

  /** GetReviewByOrderID: the ids of the reviews written for an order. */
  function GetReviewByOrderID(s: Store, orderId: int, faults: Faults): (r: Result<set<int>, Error>)
    ensures faults.lookupFails <==> r.Failure?
    ensures r.Success? ==> forall id :: id in r.value <==> id in s.reviews && s.reviews[id].orderId == orderId
  {
    if faults.lookupFails then Failure(StoreFailure)
    else Success(set id | id in s.reviews && s.reviews[id].orderId == orderId)
  }

  /** SaveReview: GORM's Save. In the model reviews are keyed by review id, so a
      save under a stored id replaces that review. */
  function SaveReview(s: Store, review: Review, faults: Faults): (t: Transition<Review>)
    ensures faults.firstWriteFails ==> t.result == Failure(StoreFailure) && t.after == s
    ensures !faults.firstWriteFails ==>
              && t.result == Success(review)
              && t.after.reviews.Keys == s.reviews.Keys + {review.reviewId}
              && t.after.reviews[review.reviewId] == review
              && (forall id | id in s.reviews && id != review.reviewId :: t.after.reviews[id] == s.reviews[id])
              && t.after.replies == s.replies && t.after.appeals == s.appeals
  {
    Commit(s, s.(reviews := s.reviews[review.reviewId := review]), faults.firstWriteFails, review)
  }

  // ------------------------------------------------------------ replies

  /** SaveReply: the review must exist, must not be replied yet and must belong to
      the replying store (checked in that order, before any write); then the reply
      insert and the hasReply update run in one transaction. */
  function SaveReply(s: Store, reply: Reply, faults: Faults): (t: Transition<Reply>)
    ensures t.result.Failure? ==> t.after == s
    ensures faults.lookupFails ==> t.result == Failure(StoreFailure)
    ensures !faults.lookupFails && reply.reviewId !in s.reviews ==> t.result == Failure(RecordNotFound)
    ensures (!faults.lookupFails && reply.reviewId in s.reviews && s.reviews[reply.reviewId].hasReply == 1)
              ==> t.result == Failure(AlreadyReplied)
    ensures (&& !faults.lookupFails && reply.reviewId in s.reviews && s.reviews[reply.reviewId].hasReply != 1
             && s.reviews[reply.reviewId].storeId != reply.storeId)
              ==> t.result == Failure(Unauthorized)
    ensures t.result.Success? <==>
              && !faults.lookupFails && reply.reviewId in s.reviews
              && s.reviews[reply.reviewId].hasReply != 1
              && s.reviews[reply.reviewId].storeId == reply.storeId
              && !faults.firstWriteFails && !faults.secondWriteFails
    ensures t.result.Success? ==>
              && t.result.value == reply
              && t.after.replies == s.replies[reply.replyId := reply]
              && t.after.reviews.Keys == s.reviews.Keys
              && t.after.reviews[reply.reviewId] == s.reviews[reply.reviewId].(hasReply := 1)
              && (forall id | id in s.reviews && id != reply.reviewId :: t.after.reviews[id] == s.reviews[id])
              && t.after.appeals == s.appeals
  {
    if faults.lookupFails then Transition(Failure(StoreFailure), s)
    else if reply.reviewId !in s.reviews then Transition(Failure(RecordNotFound), s)
    else
      var review := s.reviews[reply.reviewId];
      if review.hasReply == 1 then Transition(Failure(AlreadyReplied), s)
      else if review.storeId != reply.storeId then Transition(Failure(Unauthorized), s)
      else
        // the transaction: insert the reply, then flag the review
        var inserted := s.(replies := s.replies[reply.replyId := reply]);
        if faults.firstWriteFails then Commit(s, inserted, true, reply)
        else
          var flagged := inserted.(reviews := inserted.reviews[reply.reviewId := review.(hasReply := 1)]);
          Commit(s, flagged, faults.secondWriteFails, reply)
  }

  /** A successful reply keeps every reply tied to a replied review of its own
      store, with at most one reply per review. */
  lemma SaveReplyPreservesConsistency(s: Store, reply: Reply, faults: Faults)
    requires RepliesConsistent(s) && ReviewsConsistent(s)
    requires reply.replyId !in s.replies
    ensures RepliesConsistent(SaveReply(s, reply, faults).after)
    ensures ReviewsConsistent(SaveReply(s, reply, faults).after)
  {
    var t := SaveReply(s, reply, faults);
    if t.result.Success? {
      var a := t.after;
      forall id | id in a.reviews && a.reviews[id].hasReply == 1
        ensures HasReplyFor(a, id)
      {
        if id == reply.reviewId {
          assert a.replies[reply.replyId].reviewId == id;
        } else {
          assert s.reviews[id].hasReply == 1;
          var prev :| prev in s.replies && s.replies[prev].reviewId == id;
          assert a.replies[prev].reviewId == id;
        }
      }
    }
  }

  /** In the model, where Save replaces by reply id, a reply saved under an id
      already in use replaces the old reply and leaves its review flagged with no
      reply; the fresh-id requirement above cannot be dropped. */
  lemma ReusedReplyIdOrphansFlag()
    ensures var r1 := Review(1, 0, 11, 5, 5, 5, 5, "", "", "", 0, 0, 1);
            var r2 := Review(2, 0, 12, 5, 5, 5, 5, "", "", "", 0, 0, 0);
            var s := Store(map[1 := r1, 2 := r2], map[9 := Reply(9, 1, 5, "", "", "")], map[]);
            && RepliesConsistent(s)
            && !RepliesConsistent(SaveReply(s, Reply(9, 2, 5, "", "", ""), NoFaults).after)
  {
    var r1 := Review(1, 0, 11, 5, 5, 5, 5, "", "", "", 0, 0, 1);
    var r2 := Review(2, 0, 12, 5, 5, 5, 5, "", "", "", 0, 0, 0);
    var s := Store(map[1 := r1, 2 := r2], map[9 := Reply(9, 1, 5, "", "", "")], map[]);
    var a := SaveReply(s, Reply(9, 2, 5, "", "", ""), NoFaults).after;
    assert HasReplyFor(s, 1) by {
      assert s.replies[9].reviewId == 1;
    }
    assert a.reviews[1].hasReply == 1;
    assert !HasReplyFor(a, 1);
  }

  /** Replying twice to the same review: the second attempt is refused and
      changes nothing. */
  lemma SecondReplyRefused(s: Store, first: Reply, second: Reply)
    requires SaveReply(s, first, NoFaults).result.Success?
    requires second.reviewId == first.reviewId
    ensures var s1 := SaveReply(s, first, NoFaults).after;
            SaveReply(s1, second, NoFaults) == Transition(Failure(AlreadyReplied), s1)
  {
  }

  // ------------------------------------------------------------ appeals

  /** The appeal lookup of AppealReview: filtered by review id AND store id. */
  function FindAppeal(s: Store, reviewId: int, storeId: int): (r: Option<Appeal>)
    ensures r.Some? <==> reviewId in s.appeals && s.appeals[reviewId].storeId == storeId
    ensures r.Some? ==> r.value == s.appeals[reviewId]
  {
    if reviewId in s.appeals && s.appeals[reviewId].storeId == storeId then Some(s.appeals[reviewId]) else None
  }

  /** The pending appeal record AppealReview hands to the upsert. */
  function NewAppeal(param: AppealParam, appealId: int): (a: Appeal)
    ensures a.appealId == appealId && a.status == AppealPending && a.opUser == ""
    ensures a.reviewId == param.reviewId && a.storeId == param.storeId
    ensures a.reason == param.reason && a.content == param.content
    ensures a.picInfo == param.picInfo && a.videoInfo == param.videoInfo
  {
    Appeal(appealId, param.reviewId, param.storeId, AppealPending,
           param.reason, param.content, param.picInfo, param.videoInfo, "")
  }

  /** INSERT ... ON CONFLICT(review_id): a new review id inserts the record; an
      existing one overwrites only status, content, reason, pic_info and
      video_info, keeping the stored appeal id, store id and operator. */
  function Upsert(appeals: map<int, Appeal>, a: Appeal): (m: map<int, Appeal>)
    ensures m.Keys == appeals.Keys + {a.reviewId}
    ensures forall rid | rid in appeals && rid != a.reviewId :: m[rid] == appeals[rid]
    ensures a.reviewId !in appeals ==> m[a.reviewId] == a
    ensures a.reviewId in appeals ==>
              var stored := appeals[a.reviewId];
              m[a.reviewId] == Appeal(stored.appealId, stored.reviewId, stored.storeId, a.status,
                                       a.reason, a.content, a.picInfo, a.videoInfo, stored.opUser)
  {
    if a.reviewId in appeals then
      var stored := appeals[a.reviewId];
      appeals[a.reviewId := stored.(status := a.status, content := a.content, reason := a.reason,
                                    picInfo := a.picInfo, videoInfo := a.videoInfo)]
    else appeals[a.reviewId := a]
  }

  /** AppealReview as written: a lookup failure other than "not found" and an
      appeal of this store already past pending both stop it before any write;
      otherwise it upserts a pending appeal, reusing the found appeal id or the
      fresh one. */
  function AppealReview(s: Store, param: AppealParam, freshId: int, faults: Faults): (t: Transition<Appeal>)
    ensures t.result.Failure? ==> t.after == s
    ensures faults.lookupFails ==> t.result == Failure(StoreFailure)
    ensures (&& !faults.lookupFails && FindAppeal(s, param.reviewId, param.storeId).Some?
             && FindAppeal(s, param.reviewId, param.storeId).value.status > AppealPending)
              ==> t.result == Failure(AppealAlreadyAudited)
    ensures t.result.Success? <==>
              && !faults.lookupFails && !faults.firstWriteFails
              && !(FindAppeal(s, param.reviewId, param.storeId).Some?
                   && FindAppeal(s, param.reviewId, param.storeId).value.status > AppealPending)
    ensures t.result.Success? ==>
              && t.result.value.status == AppealPending
              && t.result.value.appealId ==
                   (if param.reviewId in s.appeals && s.appeals[param.reviewId].storeId == param.storeId
                    then s.appeals[param.reviewId].appealId else freshId)
              && t.result.value == NewAppeal(param, t.result.value.appealId)
              && t.after.appeals == Upsert(s.appeals, t.result.value)
              && t.after.reviews == s.reviews && t.after.replies == s.replies
  {
    if faults.lookupFails then Transition(Failure(StoreFailure), s)
    else
      var found := FindAppeal(s, param.reviewId, param.storeId);
      if found.Some? && found.value.status > AppealPending then Transition(Failure(AppealAlreadyAudited), s)
      else
        var appeal := NewAppeal(param, if found.Some? then found.value.appealId else freshId);
        Commit(s, s.(appeals := Upsert(s.appeals, appeal)), faults.firstWriteFails, appeal)
  }

  /** As written, another store's appeal for the same review resets an audited
      appeal to pending, and the id handed back is not the one stored. */
  lemma AppealReviewResetsAuditedAppeal()
    ensures var audited := Appeal(100, 7, 1, AppealApproved, "r", "c", "", "", "op");
            var s := Store(map[], map[], map[7 := audited]);
            var t := AppealReview(s, AppealParam(7, 2, "r2", "c2", "", "", ""), 555, NoFaults);
            && t.result == Success(Appeal(555, 7, 2, AppealPending, "r2", "c2", "", "", ""))
            && t.after.appeals[7].status == AppealPending
            && t.after.appeals[7].appealId == 100
  {
  }

  /** The corrected lookup: by review id alone, the same column the upsert
      conflicts on. */
  function FindAppealByReview(s: Store, reviewId: int): (r: Option<Appeal>)
    ensures r.Some? <==> reviewId in s.appeals
    ensures r.Some? ==> r.value == s.appeals[reviewId]
  {
    if reviewId in s.appeals then Some(s.appeals[reviewId]) else None
  }

  /** AppealReview with its lookup keyed like its upsert. */
  function AppealReviewKeyed(s: Store, param: AppealParam, freshId: int, faults: Faults): (t: Transition<Appeal>)
    ensures t.result.Failure? ==> t.after == s
    ensures faults.lookupFails ==> t.result == Failure(StoreFailure)
    ensures (&& !faults.lookupFails && param.reviewId in s.appeals
             && s.appeals[param.reviewId].status > AppealPending)
              ==> t.result == Failure(AppealAlreadyAudited)
    ensures t.result.Success? <==>
              && !faults.lookupFails && !faults.firstWriteFails
              && !(param.reviewId in s.appeals && s.appeals[param.reviewId].status > AppealPending)
    ensures t.result.Success? ==>
              t.result.value == NewAppeal(param, if param.reviewId in s.appeals
                                                 then s.appeals[param.reviewId].appealId else freshId)
    ensures t.result.Success? ==> t.after.appeals == Upsert(s.appeals, t.result.value)
    ensures t.result.Success? ==> t.after.reviews == s.reviews && t.after.replies == s.replies
  {
    if faults.lookupFails then Transition(Failure(StoreFailure), s)
    else
      var found := FindAppealByReview(s, param.reviewId);
      if found.Some? && found.value.status > AppealPending then Transition(Failure(AppealAlreadyAudited), s)
      else
        var appeal := NewAppeal(param, if found.Some? then found.value.appealId else freshId);
        Commit(s, s.(appeals := Upsert(s.appeals, appeal)), faults.firstWriteFails, appeal)
  }

  /** The correction changes only the cross-store case: when no appeal is filed
      for the review, or the filed one belongs to the same store, the keyed and
      the as-written filing agree in result and store. */
  lemma KeyedAgreesWithinStore(s: Store, param: AppealParam, freshId: int, faults: Faults)
    requires param.reviewId !in s.appeals || s.appeals[param.reviewId].storeId == param.storeId
    ensures AppealReviewKeyed(s, param, freshId, faults) == AppealReview(s, param, freshId, faults)
  {
  }

  /** With the keyed lookup an audited appeal is terminal: any new filing for its
      review is refused and nothing changes. */
  lemma KeyedAuditedAppealIsTerminal(s: Store, param: AppealParam, freshId: int, faults: Faults)
    requires param.reviewId in s.appeals && s.appeals[param.reviewId].status > AppealPending
    ensures AppealReviewKeyed(s, param, freshId, faults).after == s
    ensures AppealReviewKeyed(s, param, freshId, faults).result.Failure?
  {
  }

  /** With the keyed lookup the appeal handed back carries the id actually
      stored for the review, and the stored appeal is pending. */
  lemma KeyedAppealIdIsStored(s: Store, param: AppealParam, freshId: int, faults: Faults)
    requires AppealsKeyed(s)
    ensures var t := AppealReviewKeyed(s, param, freshId, faults);
            t.result.Success? ==>
              && param.reviewId in t.after.appeals
              && t.after.appeals[param.reviewId].appealId == t.result.value.appealId
              && t.after.appeals[param.reviewId].status == AppealPending
              && (param.reviewId !in s.appeals ==> t.result.value.appealId == freshId)
    ensures AppealsKeyed(AppealReviewKeyed(s, param, freshId, faults).after)
  {
  }

  /** Re-filing a pending appeal of the same store keeps its appeal id and
      overwrites its content. */
  lemma RefilePendingKeepsAppealId(s: Store, param: AppealParam, freshId: int)
    requires AppealsKeyed(s)
    requires param.reviewId in s.appeals
    requires s.appeals[param.reviewId].storeId == param.storeId
    requires s.appeals[param.reviewId].status <= AppealPending
    ensures var t := AppealReview(s, param, freshId, NoFaults);
            && t.result.Success?
            && t.result.value.appealId == s.appeals[param.reviewId].appealId
            && t.after.appeals[param.reviewId] == NewAppeal(param, s.appeals[param.reviewId].appealId)
                 .(opUser := s.appeals[param.reviewId].opUser)
  {
  }

  /** Upserting keeps one appeal per review, filed under that review. */
  lemma AppealReviewKeepsAppealsKeyed(s: Store, param: AppealParam, freshId: int, faults: Faults)
    requires AppealsKeyed(s)
    ensures AppealsKeyed(AppealReview(s, param, freshId, faults).after)
  {
  }

  // ------------------------------------------------------------ audit

  /** The appeal-table update of AuditAppeal: every appeal with the given id
      gets the new status and operator. */
  function SetAuditResult(appeals: map<int, Appeal>, appealId: int, status: int, opUser: string): (m: map<int, Appeal>)
    ensures m.Keys == appeals.Keys
    ensures forall rid | rid in appeals ::
              m[rid] == if appeals[rid].appealId == appealId
                        then appeals[rid].(status := status, opUser := opUser) else appeals[rid]
  {
    map rid | rid in appeals :: if appeals[rid].appealId == appealId
                                then appeals[rid].(status := status, opUser := opUser) else appeals[rid]
  }

  /** The review-table update of AuditAppeal: an UPDATE by id; no row, no change. */
  function HideReview(reviews: map<int, Review>, reviewId: int): (m: map<int, Review>)
    ensures m.Keys == reviews.Keys
    ensures forall id | id in reviews && id != reviewId :: m[id] == reviews[id]
    ensures reviewId in reviews ==> m[reviewId] == reviews[reviewId].(status := ReviewHidden)
  {
    if reviewId in reviews then reviews[reviewId := reviews[reviewId].(status := ReviewHidden)] else reviews
  }

  /** AuditAppeal: one transaction that records the audit on the appeal and,
      only when the appeal is approved (status 20), hides the review. */
  function AuditAppeal(s: Store, param: AuditAppealParam, faults: Faults): (t: Transition<()>)
    ensures t.result.Failure? ==> t.result.error == StoreFailure && t.after == s
    ensures t.result.Success? <==>
              !faults.firstWriteFails && (param.status == AppealApproved ==> !faults.secondWriteFails)
    ensures t.result.Success? ==>
              && t.after.appeals == SetAuditResult(s.appeals, param.appealId, param.status, param.opUser)
              && t.after.replies == s.replies
    ensures t.result.Success? && param.status == AppealApproved ==>
              t.after.reviews == HideReview(s.reviews, param.reviewId)
    ensures t.result.Success? && param.status != AppealApproved ==> t.after.reviews == s.reviews
  {
    var audited := s.(appeals := SetAuditResult(s.appeals, param.appealId, param.status, param.opUser));
    if faults.firstWriteFails then Commit(s, audited, true, ())
    else if param.status == AppealApproved then
      Commit(s, audited.(reviews := HideReview(audited.reviews, param.reviewId)), faults.secondWriteFails, ())
    else Commit(s, audited, false, ())
  }

  /** For a review that exists and is not hidden yet, a successful audit hides it
      exactly when the audit approved the appeal; a failed audit changes neither
      table. An already hidden review stays hidden whatever the audit says, since
      the audit never reads the current statuses. */
  lemma AuditHidesReviewIffApproved(s: Store, param: AuditAppealParam, faults: Faults)
    requires param.reviewId in s.reviews && s.reviews[param.reviewId].status != ReviewHidden
    ensures var t := AuditAppeal(s, param, faults);
            t.result.Success? ==>
              (t.after.reviews[param.reviewId].status == ReviewHidden <==> param.status == AppealApproved)
    ensures var t := AuditAppeal(s, param, faults);
            t.result.Failure? ==> t.after.reviews == s.reviews && t.after.appeals == s.appeals
  {
  }

  /** The audit touches neither reply bookkeeping nor review identity. */
  lemma AuditAppealPreservesConsistency(s: Store, param: AuditAppealParam, faults: Faults)
    requires RepliesConsistent(s) && ReviewsConsistent(s) && AppealsKeyed(s)
    ensures RepliesConsistent(AuditAppeal(s, param, faults).after)
    ensures ReviewsConsistent(AuditAppeal(s, param, faults).after)
    ensures AppealsKeyed(AuditAppeal(s, param, faults).after)
  {
  }
}
