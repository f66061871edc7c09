/** Two handlers as their promise chains actually run, for comparison with
    the handlers in Screams, which take each early `return` as the end of the
    request and the Like Guard's branch as intended.

    In a promise chain, `return response.status(404).json(...)` inside one
    `.then` only hands the response object to the next `.then`, which runs
    anyway. */
module AsWritten {
  import opened Records
  import Invariants

  /** likeScream as written: the guard tests `doc.exists` on a query result,
      which has no such property, so the chain always reaches the `add`. When
      the scream is missing, the 404 branch's response object reaches the same
      test and the like is added as well; only the counter update then fails,
      on the undefined `screamData`. Result: (screams, likes) afterwards. */
  function LikeScreamAsWritten(
    screams: map<Id, Scream>, likes: map<Id, Like>, screamId: Id, handle: Handle, likeId: Id)
    : (r: (map<Id, Scream>, map<Id, Like>))
    ensures likeId in r.1 && r.1[likeId] == Like(screamId, handle, None)
    ensures r.1.Keys == likes.Keys + {likeId}
    ensures forall k :: k in likes && k != likeId ==> r.1[k] == likes[k]
    ensures r.0.Keys == screams.Keys
    ensures forall k :: k in screams && k != screamId ==> r.0[k] == screams[k]
    ensures screamId in screams ==>
      r.0[screamId] == screams[screamId].(likeCount := Increment(OrZero(screams[screamId].likeCount)))
  {
    var likes' := likes[likeId := Like(screamId, handle, None)];
    if screamId in screams then
      var s := screams[screamId];
      (screams[screamId := s.(likeCount := Increment(OrZero(s.likeCount)))], likes')
    else
      (screams, likes')
  }

  /** Liking a second time adds a second like of the same pair: the store
      no longer holds at most one like per (user, scream). */
  lemma LikeTwiceDuplicates(
    screams: map<Id, Scream>, likes: map<Id, Like>, screamId: Id, handle: Handle, likeId: Id)
    requires likeId !in likes && LikesOfPair(likes, handle, screamId) != {}
    ensures LikesOfPair(LikeScreamAsWritten(screams, likes, screamId, handle, likeId).1, handle, screamId)
            == LikesOfPair(likes, handle, screamId) + {likeId}
    ensures !Invariants.OneLikePerPair(LikeScreamAsWritten(screams, likes, screamId, handle, likeId).1)
  {
    var likes' := LikeScreamAsWritten(screams, likes, screamId, handle, likeId).1;
    var earlier :| earlier in LikesOfPair(likes, handle, screamId);
    assert earlier in likes' && likeId in likes' && earlier != likeId;
    assert likes'[earlier].userHandle == likes'[likeId].userHandle;
  }

  /** Liking a missing scream still stores a like, for a scream that does
      not exist. */
  lemma LikeMissingScreamOrphans(
    screams: map<Id, Scream>, likes: map<Id, Like>, screamId: Id, handle: Handle, likeId: Id)
    requires screamId !in screams
    ensures var (screams', likes') := LikeScreamAsWritten(screams, likes, screamId, handle, likeId);
      likeId in likes' && likes'[likeId].screamId !in screams'
  {
  }

  /** commentOnScream as written: when the scream is missing, the 404
      branch's response reaches the next `.then`, which adds the comment.
      Result: (screams, comments) afterwards. */
  function CommentOnScreamAsWritten(
    screams: map<Id, Scream>, comments: map<Id, Comment>, httpMethod: string, body: string,
    screamId: Id, handle: Handle, imageUrl: Url, now: Timestamp, commentId: Id)
    : (r: (map<Id, Scream>, map<Id, Comment>))
    ensures httpMethod != "POST" || body == "" ==> r == (screams, comments)
    ensures httpMethod == "POST" && body != "" ==>
      && commentId in r.1 && r.1[commentId] == Comment(body, now, screamId, handle, imageUrl)
      && r.1.Keys == comments.Keys + {commentId}
    ensures forall k :: k in comments && k != commentId ==> r.1[k] == comments[k]
    ensures r.0.Keys == screams.Keys
    ensures forall k :: k in screams && k != screamId ==> r.0[k] == screams[k]
    ensures httpMethod == "POST" && body != "" && screamId in screams ==>
      r.0[screamId] == screams[screamId].(commentCount := Increment(screams[screamId].commentCount))
  {
    if httpMethod != "POST" || body == "" then (screams, comments)
    else
      var comments' := comments[commentId := Comment(body, now, screamId, handle, imageUrl)];
      if screamId in screams then
        var s := screams[screamId];
        (screams[screamId := s.(commentCount := Increment(s.commentCount))], comments')
      else
        (screams, comments')
  }

  /** Commenting on a missing scream stores a comment for a scream that does
      not exist. */
  lemma CommentMissingScreamOrphans(
    screams: map<Id, Scream>, comments: map<Id, Comment>, body: string,
    screamId: Id, handle: Handle, imageUrl: Url, now: Timestamp, commentId: Id)
    requires body != "" && screamId !in screams
    ensures var (screams', comments') :=
      CommentOnScreamAsWritten(screams, comments, "POST", body, screamId, handle, imageUrl, now, commentId);
      commentId in comments' && comments'[commentId].screamId !in screams'
  {
  }
}
