/** The whole-store facts the denormalised data must keep, and how each kind
    of write the handlers and triggers make preserves them. */
module Invariants {
  import opened Records

  /** A scream's like counter agrees with `n` likes: it holds the number
      itself, or it is still absent and there are none (likeScream reads an
      absent counter as 0). */
  ghost predicate Tallies(c: Count, n: nat) {
    c == Num(n) || (c == Missing && n == 0)
  }

  ghost predicate LikeCountsMatch(screams: map<Id, Scream>, likes: map<Id, Like>) {
    forall sid :: sid in screams ==> Tallies(screams[sid].likeCount, |LikesOn(likes, sid)|)
  }

  ghost predicate CommentCountsMatch(screams: map<Id, Scream>, comments: map<Id, Comment>) {
    forall sid :: sid in screams ==> screams[sid].commentCount == Num(|CommentsOn(comments, sid)|)
  }

  /** The Like Guard's invariant: at most one like per (user, scream) pair. */
  ghost predicate OneLikePerPair(likes: map<Id, Like>) {
    forall a, b ::
      (a in likes && b in likes && likes[a].userHandle == likes[b].userHandle
       && likes[a].screamId == likes[b].screamId) ==> a == b
  }

  ghost predicate NoSelfNotification(notifications: map<Id, Notification>) {
    forall k :: k in notifications ==> notifications[k].recipient != notifications[k].sender
  }

  ghost predicate Consistent(
    screams: map<Id, Scream>, comments: map<Id, Comment>, likes: map<Id, Like>,
    notifications: map<Id, Notification>)
  {
    && LikeCountsMatch(screams, likes)
    && CommentCountsMatch(screams, comments)
    && OneLikePerPair(likes)
    && NoSelfNotification(notifications)
  }

  /** A like on an existing scream, under a fresh id, with likeScream's
      counter update (absent counts as 0, then ++), keeps every counter right. */
  lemma LikeKeepsCounts(
    screams: map<Id, Scream>, likes: map<Id, Like>, likeId: Id, like: Like)
    requires LikeCountsMatch(screams, likes)
    requires like.screamId in screams && likeId !in likes
    ensures var s := screams[like.screamId];
      LikeCountsMatch(screams[like.screamId := s.(likeCount := Increment(OrZero(s.likeCount)))],
                      likes[likeId := like])
  {
    var sid := like.screamId;
    var s := screams[sid];
    var screams' := screams[sid := s.(likeCount := Increment(OrZero(s.likeCount)))];
    var likes' := likes[likeId := like];
    forall t | t in screams' ensures Tallies(screams'[t].likeCount, |LikesOn(likes', t)|) {
      LikesOnAfterAdd(likes, likeId, like, t);
      if t == sid {
        assert OrZero(s.likeCount) == Num(|LikesOn(likes, t)|);
      }
    }
  }

  /** The likes of scream `t` once a like is added under a fresh id. */
  lemma LikesOnAfterAdd(likes: map<Id, Like>, likeId: Id, like: Like, t: Id)
    requires likeId !in likes
    ensures t == like.screamId ==> |LikesOn(likes[likeId := like], t)| == |LikesOn(likes, t)| + 1
    ensures t != like.screamId ==> LikesOn(likes[likeId := like], t) == LikesOn(likes, t)
  {
    if t == like.screamId {
      assert likeId !in LikesOn(likes, t);
      assert LikesOn(likes[likeId := like], t) == LikesOn(likes, t) + {likeId};
    } else {
      assert LikesOn(likes[likeId := like], t) == LikesOn(likes, t);
    }
  }

  /** Removing one like of a scream and decrementing its counter keeps every
      counter right; the decremented counter is a number and not negative. */
  lemma UnlikeKeepsCounts(screams: map<Id, Scream>, likes: map<Id, Like>, likeId: Id)
    requires LikeCountsMatch(screams, likes)
    requires likeId in likes && likes[likeId].screamId in screams
    ensures var sid := likes[likeId].screamId;
      Decrement(screams[sid].likeCount) == Num(|LikesOn(likes, sid)| - 1)
    ensures var sid := likes[likeId].screamId; var s := screams[sid];
      LikeCountsMatch(screams[sid := s.(likeCount := Decrement(s.likeCount))], likes - {likeId})
  {
    var sid := likes[likeId].screamId;
    var s := screams[sid];
    var screams' := screams[sid := s.(likeCount := Decrement(s.likeCount))];
    var likes' := likes - {likeId};
    assert likeId in LikesOn(likes, sid);
    forall t | t in screams' ensures Tallies(screams'[t].likeCount, |LikesOn(likes', t)|) {
      if t == sid {
        assert LikesOn(likes', t) == LikesOn(likes, t) - {likeId};
      } else {
        assert LikesOn(likes', t) == LikesOn(likes, t);
      }
    }
  }

  /** A like that passes the Like Guard keeps at most one like per pair. */
  lemma GuardedLikeKeepsOnePerPair(likes: map<Id, Like>, likeId: Id, like: Like)
    requires OneLikePerPair(likes)
    requires likeId !in likes && LikesOfPair(likes, like.userHandle, like.screamId) == {}
    ensures OneLikePerPair(likes[likeId := like])
  {
    var likes' := likes[likeId := like];
    assert forall k :: k in likes ==>
      (k in LikesOfPair(likes, like.userHandle, like.screamId) <==>
       likes[k].userHandle == like.userHandle && likes[k].screamId == like.screamId);
    forall a, b | a in likes' && b in likes' && likes'[a].userHandle == likes'[b].userHandle
      && likes'[a].screamId == likes'[b].screamId
      ensures a == b
    {
    }
  }

  /** A comment on an existing scream, under a fresh id, with the counter
      incremented, keeps every comment counter right. */
  lemma CommentKeepsCounts(
    screams: map<Id, Scream>, comments: map<Id, Comment>, commentId: Id, comment: Comment)
    requires CommentCountsMatch(screams, comments)
    requires comment.screamId in screams && commentId !in comments
    ensures var s := screams[comment.screamId];
      CommentCountsMatch(screams[comment.screamId := s.(commentCount := Increment(s.commentCount))],
                         comments[commentId := comment])
  {
    var sid := comment.screamId;
    var s := screams[sid];
    var screams' := screams[sid := s.(commentCount := Increment(s.commentCount))];
    var comments' := comments[commentId := comment];
    forall t | t in screams' ensures screams'[t].commentCount == Num(|CommentsOn(comments', t)|) {
      CommentsOnAfterAdd(comments, commentId, comment, t);
      if t == sid {
        assert screams[t].commentCount == Num(|CommentsOn(comments, t)|);
      }
    }
  }

  /** The comments of scream `t` once a comment is added under a fresh id. */
  lemma CommentsOnAfterAdd(comments: map<Id, Comment>, commentId: Id, comment: Comment, t: Id)
    requires commentId !in comments
    ensures t == comment.screamId ==> |CommentsOn(comments[commentId := comment], t)| == |CommentsOn(comments, t)| + 1
    ensures t != comment.screamId ==> CommentsOn(comments[commentId := comment], t) == CommentsOn(comments, t)
  {
    if t == comment.screamId {
      assert commentId !in CommentsOn(comments, t);
      assert CommentsOn(comments[commentId := comment], t) == CommentsOn(comments, t) + {commentId};
    } else {
      assert CommentsOn(comments[commentId := comment], t) == CommentsOn(comments, t);
    }
  }

  /** A new scream with both counters at 0, under an id nothing refers to,
      keeps both kinds of counters right. */
  lemma PostKeepsCounts(
    screams: map<Id, Scream>, comments: map<Id, Comment>, likes: map<Id, Like>, screamId: Id, scream: Scream)
    requires LikeCountsMatch(screams, likes) && CommentCountsMatch(screams, comments)
    requires LikesOn(likes, screamId) == {} && CommentsOn(comments, screamId) == {}
    requires scream.likeCount == Num(0) && scream.commentCount == Num(0)
    ensures LikeCountsMatch(screams[screamId := scream], likes)
    ensures CommentCountsMatch(screams[screamId := scream], comments)
  {
    assert |LikesOn(likes, screamId)| == 0 && |CommentsOn(comments, screamId)| == 0;
  }

  /** Removing every comment and like of a scream that is no longer in the
      store leaves the counters of all remaining screams right, and the
      remaining likes still one per pair. */
  lemma CascadeKeepsCounts(
    screams: map<Id, Scream>, comments: map<Id, Comment>, likes: map<Id, Like>, screamId: Id)
    requires LikeCountsMatch(screams, likes) && CommentCountsMatch(screams, comments)
    requires OneLikePerPair(likes)
    requires screamId !in screams
    ensures LikeCountsMatch(screams, likes - LikesOn(likes, screamId))
    ensures CommentCountsMatch(screams, comments - CommentsOn(comments, screamId))
    ensures OneLikePerPair(likes - LikesOn(likes, screamId))
  {
    var likes' := likes - LikesOn(likes, screamId);
    var comments' := comments - CommentsOn(comments, screamId);
    forall t | t in screams
      ensures LikesOn(likes', t) == LikesOn(likes, t) && CommentsOn(comments', t) == CommentsOn(comments, t)
    {
      assert t != screamId;
    }
  }

  /** Writes that keep every key and never change which scream a like or
      comment belongs to, who wrote a like, or a scream's counters (the
      profile-image fan-out is one) keep the counters right and the likes one
      per pair. */
  lemma RelinkFreeWritesKeepCounts(
    screams: map<Id, Scream>, comments: map<Id, Comment>, likes: map<Id, Like>,
    screams': map<Id, Scream>, comments': map<Id, Comment>, likes': map<Id, Like>)
    requires LikeCountsMatch(screams, likes) && CommentCountsMatch(screams, comments)
    requires OneLikePerPair(likes)
    requires screams'.Keys == screams.Keys && comments'.Keys == comments.Keys && likes'.Keys == likes.Keys
    requires forall k :: k in screams ==>
      screams'[k].likeCount == screams[k].likeCount && screams'[k].commentCount == screams[k].commentCount
    requires forall k :: k in comments ==> comments'[k].screamId == comments[k].screamId
    requires forall k :: k in likes ==>
      likes'[k].screamId == likes[k].screamId && likes'[k].userHandle == likes[k].userHandle
    ensures LikeCountsMatch(screams', likes') && CommentCountsMatch(screams', comments')
    ensures OneLikePerPair(likes')
  {
    forall t | t in screams'
      ensures LikesOn(likes', t) == LikesOn(likes, t) && CommentsOn(comments', t) == CommentsOn(comments, t)
    {
    }
  }

  /** markNotificationsRead's effect: `read` set on the listed notifications. */
  function MarkedRead(notifications: map<Id, Notification>, ids: set<Id>): (r: map<Id, Notification>)
    ensures r.Keys == notifications.Keys
    ensures forall k :: k in r ==> r[k].read == (k in ids || notifications[k].read)
    ensures forall k :: k in r ==> r[k] == notifications[k].(read := r[k].read)
  {
    map k | k in notifications :: if k in ids then notifications[k].(read := true) else notifications[k]
  }

  /** Marking twice is marking once, and marking keeps no-self-notification. */
  lemma MarkedReadIdempotent(notifications: map<Id, Notification>, ids: set<Id>)
    ensures MarkedRead(MarkedRead(notifications, ids), ids) == MarkedRead(notifications, ids)
    ensures NoSelfNotification(notifications) ==> NoSelfNotification(MarkedRead(notifications, ids))
  {
  }
}
