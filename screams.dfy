/** The scream handlers: posting, commenting, liking, unliking, deleting, and
    the two read-only queries. Each handler runs as one sequential step over
    the store; the request's authenticated user is given as `handle` (and
    `imageUrl`), and `new Date()` and the ids the store generates for added
    documents are parameters. */
module Screams {
  import opened Records
  import opened Store
  import Invariants

  /** A scream document with its comments, as getScream answers. */
  datatype ScreamData = ScreamData(scream: Doc<Scream>, comments: seq<Comment>)

  /** getAllScreams: every scream, newest first, each with its document id. */
  ghost function GetAllScreams(screams: map<Id, Scream>): (r: seq<Doc<Scream>>)
    ensures |r| == |screams|
    ensures forall i :: 0 <= i < |r| ==> r[i].id in screams && r[i].data == screams[r[i].id]
    ensures forall id :: id in screams ==> Doc(id, screams[id]) in r
    ensures forall i, j :: 0 <= i < j < |r| ==> r[i].id != r[j].id
    ensures forall i, j :: 0 <= i < j < |r| ==> r[j].data.createdAt <= r[i].data.createdAt
  {
    var r := OrderByCreatedDesc(screams, screams.Keys, ScreamTime);
    assert NewestFirst(r, ScreamTime);
    r
  }

  /** getScream: "Scream not found" for a missing scream; otherwise the
      scream with its id and exactly its comments, newest first. */
  ghost function GetScream(screams: map<Id, Scream>, comments: map<Id, Comment>, screamId: Id): (r: Result<ScreamData>)
    ensures r.Err? <==> screamId !in screams
    ensures r.Err? ==> r.failure == ScreamNotFound
    ensures r.Ok? ==> r.value.scream == Doc(screamId, screams[screamId])
    ensures r.Ok? ==> |r.value.comments| == |CommentsOn(comments, screamId)|
    ensures r.Ok? ==> forall i :: 0 <= i < |r.value.comments| ==>
      r.value.comments[i].screamId == screamId && r.value.comments[i] in comments.Values
    ensures r.Ok? ==> forall k :: k in comments && comments[k].screamId == screamId ==>
      comments[k] in r.value.comments
    ensures r.Ok? ==> forall i, j :: 0 <= i < j < |r.value.comments| ==>
      r.value.comments[j].createdAt <= r.value.comments[i].createdAt
    ensures r.Ok? ==> exists docs: seq<Doc<Comment>> ::
      Answers(docs, comments, CommentsOn(comments, screamId)) && r.value.comments == Datas(docs)
  {
    if screamId !in screams then Err(ScreamNotFound)
    else Ok(ScreamData(Doc(screamId, screams[screamId]), CommentsAnswer(comments, screamId)))
  }

  /** The comments query of getScream: the data of every comment on the
      scream, one entry per comment document, newest first. */
  ghost function CommentsAnswer(comments: map<Id, Comment>, screamId: Id): (r: seq<Comment>)
    ensures |r| == |CommentsOn(comments, screamId)|
    ensures forall i :: 0 <= i < |r| ==> r[i].screamId == screamId && r[i] in comments.Values
    ensures forall k :: k in comments && comments[k].screamId == screamId ==> comments[k] in r
    ensures forall i, j :: 0 <= i < j < |r| ==> r[j].createdAt <= r[i].createdAt
    ensures exists docs: seq<Doc<Comment>> ::
      Answers(docs, comments, CommentsOn(comments, screamId)) && NewestFirst(docs, CommentTime) && r == Datas(docs)
  {
    var docs := OrderByCreatedDesc(comments, CommentsOn(comments, screamId), CommentTime);
    DatasOfAnswer(comments, CommentsOn(comments, screamId), docs);
    DatasNewestFirst(docs, CommentTime);
    Datas(docs)
  }

  /** postOneScream: only a POST adds a scream, and then exactly one, by the
      requester, carrying the requester's image and both counters at 0. */
  method PostOneScream(
    db: Db, httpMethod: string, body: string, handle: Handle, imageUrl: Url, now: Timestamp, screamId: Id)
    returns (reply: Reply)
    requires db.Unused(screamId)
    modifies db
    ensures httpMethod != "POST" <==> reply == Refused(MethodNotAllowed)
    ensures httpMethod != "POST" ==> unchanged(db)
    ensures httpMethod == "POST" ==>
      && reply == Done
      && db.screams == old(db.screams)[screamId := Scream(body, handle, now, imageUrl, Num(0), Num(0))]
    ensures db.users == old(db.users) && db.comments == old(db.comments)
    ensures db.likes == old(db.likes) && db.notifications == old(db.notifications)
    ensures old(db.Consistent()) ==> db.Consistent()
  {
    if httpMethod != "POST" {
      return Refused(MethodNotAllowed);
    }
    var scream := Scream(body, handle, now, imageUrl, Num(0), Num(0));
    if db.Consistent() {
      Invariants.PostKeepsCounts(db.screams, db.comments, db.likes, screamId, scream);
    }
    db.screams := db.screams[screamId := scream];
    reply := Done;
  }

  /** commentOnScream: refuses a non-POST, an empty body and a missing scream
      without writing; otherwise adds exactly one comment and increments the
      scream's `commentCount` (`undefined + 1` being NaN). The source's 404
      branch does not stop the promise chain; the as-written flow is
      AsWritten.CommentOnScreamAsWritten. */
  method CommentOnScream(
    db: Db, httpMethod: string, body: string, screamId: Id, handle: Handle, imageUrl: Url,
    now: Timestamp, commentId: Id)
    returns (reply: Reply)
    requires db.Unused(commentId)
    modifies db
    ensures httpMethod != "POST" ==> reply == Refused(MethodNotAllowed)
    ensures httpMethod == "POST" && body == "" ==> reply == Refused(EmptyBody)
    ensures httpMethod == "POST" && body != "" && screamId !in old(db.screams) ==> reply == Refused(ScreamNotFound)
    ensures reply == Done <==> httpMethod == "POST" && body != "" && screamId in old(db.screams)
    ensures reply != Done ==> unchanged(db)
    ensures reply == Done ==>
      && db.comments == old(db.comments)[commentId := Comment(body, now, screamId, handle, imageUrl)]
      && db.screams == old(db.screams)[screamId := old(db.screams)[screamId].(
           commentCount := Increment(old(db.screams)[screamId].commentCount))]
    ensures db.users == old(db.users) && db.likes == old(db.likes) && db.notifications == old(db.notifications)
    ensures old(db.Consistent()) ==> db.Consistent()
  {
    if httpMethod != "POST" {
      return Refused(MethodNotAllowed);
    }
    if body == "" {
      return Refused(EmptyBody);
    }
    if screamId !in db.screams {
      return Refused(ScreamNotFound);
    }
    var comment := Comment(body, now, screamId, handle, imageUrl);
    if db.Consistent() {
      Invariants.CommentKeepsCounts(db.screams, db.comments, commentId, comment);
    }
    var scream := db.screams[screamId];
    db.screams := db.screams[screamId := scream.(commentCount := Increment(scream.commentCount))];
    db.comments := db.comments[commentId := comment];
    reply := Done;
  }

  /** likeScream with the Like Guard: refuses a missing scream and a pair
      already liked, writing nothing; otherwise adds exactly one like and sets
      `likeCount` to the old count plus one, an absent count read as 0.
      The source tests `doc.exists` on the guard's query result, which a query
      result does not have, so its guard never fires; the model takes the
      branch as intended (`!doc.empty`), and AsWritten.LikeScreamAsWritten
      follows the code as written. */
  method LikeScream(db: Db, screamId: Id, handle: Handle, likeId: Id) returns (reply: Reply)
    requires db.Unused(likeId)
    modifies db
    ensures screamId !in old(db.screams) ==> reply == Refused(ScreamNotFound)
    ensures screamId in old(db.screams) && LikesOfPair(old(db.likes), handle, screamId) != {} ==>
      reply == Refused(AlreadyLiked)
    ensures reply == Done <==> screamId in old(db.screams) && LikesOfPair(old(db.likes), handle, screamId) == {}
    ensures reply != Done ==> unchanged(db)
    ensures reply == Done ==>
      && db.likes == old(db.likes)[likeId := Like(screamId, handle, None)]
      && db.screams == old(db.screams)[screamId := old(db.screams)[screamId].(
           likeCount := Increment(OrZero(old(db.screams)[screamId].likeCount)))]
    ensures db.users == old(db.users) && db.comments == old(db.comments) && db.notifications == old(db.notifications)
    ensures old(db.Consistent()) ==> db.Consistent()
  {
    if screamId !in db.screams {
      return Refused(ScreamNotFound);
    }
    var found := LikesOfPair(db.likes, handle, screamId);  // .limit(1).get()
    if found != {} {
      return Refused(AlreadyLiked);
    }
    var like := Like(screamId, handle, None);
    if db.Consistent() {
      Invariants.LikeKeepsCounts(db.screams, db.likes, likeId, like);
      Invariants.GuardedLikeKeepsOnePerPair(db.likes, likeId, like);
    }
    var scream := db.screams[screamId];
    db.likes := db.likes[likeId := like];
    db.screams := db.screams[screamId := scream.(likeCount := Increment(OrZero(scream.likeCount)))];
    reply := Done;
  }

  /** unlikeScream: refuses a missing scream and a pair not liked, writing
      nothing; otherwise deletes exactly one like of the pair (`removed`) and
      decrements `likeCount`. In a consistent store that was the pair's only
      like and the new count is the number of likes left. */
  method UnlikeScream(db: Db, screamId: Id, handle: Handle) returns (reply: Reply, removed: Option<Id>)
    modifies db
    ensures screamId !in old(db.screams) ==> reply == Refused(ScreamNotFound)
    ensures screamId in old(db.screams) && LikesOfPair(old(db.likes), handle, screamId) == {} ==>
      reply == Refused(NotLiked)
    ensures reply == Done <==> screamId in old(db.screams) && LikesOfPair(old(db.likes), handle, screamId) != {}
    ensures reply != Done ==> unchanged(db) && removed == None
    ensures reply == Done ==>
      && removed.Some? && removed.value in LikesOfPair(old(db.likes), handle, screamId)
      && db.likes == old(db.likes) - {removed.value}
      && db.screams == old(db.screams)[screamId := old(db.screams)[screamId].(
           likeCount := Decrement(old(db.screams)[screamId].likeCount))]
    ensures db.users == old(db.users) && db.comments == old(db.comments) && db.notifications == old(db.notifications)
    ensures old(db.Consistent()) ==> db.Consistent()
    ensures old(db.Consistent()) && reply == Done ==>
      && LikesOfPair(db.likes, handle, screamId) == {}
      && db.screams[screamId].likeCount == Num(|LikesOn(db.likes, screamId)|)
  {
    if screamId !in db.screams {
      return Refused(ScreamNotFound), None;
    }
    var found := LikesOfPair(db.likes, handle, screamId);  // .limit(1).get()
    if found == {} {
      return Refused(NotLiked), None;
    }
    var likeId :| likeId in found;  // doc.docs[0].id
    if db.Consistent() {
      Invariants.UnlikeKeepsCounts(db.screams, db.likes, likeId);
      assert LikesOfPair(db.likes - {likeId}, handle, screamId) == {};
    }
    var scream := db.screams[screamId];
    db.likes := db.likes - {likeId};
    db.screams := db.screams[screamId := scream.(likeCount := Decrement(scream.likeCount))];
    reply, removed := Done, Some(likeId);
  }

  /** deleteScream: "scream does not exist" for a missing scream, "wrong user"
      when the requester is not its author, neither deleting anything;
      otherwise exactly that scream is removed (its dependents are removed by
      Triggers.OnScreamDelete). */
  method DeleteScream(db: Db, screamId: Id, handle: Handle) returns (reply: Reply)
    modifies db
    ensures screamId !in old(db.screams) ==> reply == Refused(ScreamDoesNotExist)
    ensures screamId in old(db.screams) && old(db.screams)[screamId].userHandle != handle ==> reply == Refused(WrongUser)
    ensures reply == Done <==> screamId in old(db.screams) && old(db.screams)[screamId].userHandle == handle
    ensures reply != Done ==> unchanged(db)
    ensures reply == Done ==> db.screams == old(db.screams) - {screamId}
    ensures db.users == old(db.users) && db.comments == old(db.comments)
    ensures db.likes == old(db.likes) && db.notifications == old(db.notifications)
    ensures old(db.Consistent()) ==> db.Consistent()
  {
    if screamId !in db.screams {
      return Refused(ScreamDoesNotExist);
    }
    if db.screams[screamId].userHandle != handle {
      return Refused(WrongUser);
    }
    db.screams := db.screams - {screamId};
    reply := Done;
  }
}
