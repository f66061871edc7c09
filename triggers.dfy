/** The Firestore triggers: notification generation and removal, the
    profile-image fan-out and the scream-deletion cascade. Each trigger runs as
    one sequential step; the created or deleted document arrives as a snapshot
    (its id and data) and `new Date()` is a parameter. */
module Triggers {
  import opened Records
  import opened Store
  import Invariants

  /** The shared body of the two creation triggers: look up the scream; when
      it exists and its author is not the sender, write notification `id`
      (the triggering document's id) to the author; otherwise write nothing.
      A repeated event writes the same key again and adds no record. */
  method Notify(db: Db, id: Id, screamId: Id, sender: Handle, kind: Kind, now: Timestamp)
    modifies db
    ensures screamId in old(db.screams) && old(db.screams)[screamId].userHandle != sender ==>
      db.notifications == old(db.notifications)[id :=
        Notification(now, old(db.screams)[screamId].userHandle, sender, false, screamId, kind)]
    ensures screamId !in old(db.screams) || old(db.screams)[screamId].userHandle == sender ==>
      db.notifications == old(db.notifications)
    ensures db.notifications.Keys <= old(db.notifications.Keys) + {id}
    ensures db.users == old(db.users) && db.screams == old(db.screams)
    ensures db.comments == old(db.comments) && db.likes == old(db.likes)
    ensures old(db.Consistent()) ==> db.Consistent()
  {
    if screamId in db.screams && db.screams[screamId].userHandle != sender {
      var recipient := db.screams[screamId].userHandle;
      db.notifications := db.notifications[id := Notification(now, recipient, sender, false, screamId, kind)];
    }
  }

  /** createNotificationOnLike: a "like" notification under the like's id,
      addressed to the scream's author, unless the scream is gone or the
      liker is its author. */
  method CreateNotificationOnLike(db: Db, likeId: Id, like: Like, now: Timestamp)
    modifies db
    ensures like.screamId in old(db.screams) && old(db.screams)[like.screamId].userHandle != like.userHandle ==>
      db.notifications == old(db.notifications)[likeId :=
        Notification(now, old(db.screams)[like.screamId].userHandle, like.userHandle, false, like.screamId, LikeKind)]
    ensures like.screamId !in old(db.screams) || old(db.screams)[like.screamId].userHandle == like.userHandle ==>
      db.notifications == old(db.notifications)
    ensures db.users == old(db.users) && db.screams == old(db.screams)
    ensures db.comments == old(db.comments) && db.likes == old(db.likes)
    ensures old(db.Consistent()) ==> db.Consistent()
  {
    Notify(db, likeId, like.screamId, like.userHandle, LikeKind, now);
  }

  /** createNotificationOnComment: the same rule with a "comment"
      notification under the comment's id. */
  method CreateNotificationOnComment(db: Db, commentId: Id, comment: Comment, now: Timestamp)
    modifies db
    ensures comment.screamId in old(db.screams) && old(db.screams)[comment.screamId].userHandle != comment.userHandle ==>
      db.notifications == old(db.notifications)[commentId :=
        Notification(now, old(db.screams)[comment.screamId].userHandle, comment.userHandle, false,
                     comment.screamId, CommentKind)]
    ensures comment.screamId !in old(db.screams) || old(db.screams)[comment.screamId].userHandle == comment.userHandle ==>
      db.notifications == old(db.notifications)
    ensures db.users == old(db.users) && db.screams == old(db.screams)
    ensures db.comments == old(db.comments) && db.likes == old(db.likes)
    ensures old(db.Consistent()) ==> db.Consistent()
  {
    Notify(db, commentId, comment.screamId, comment.userHandle, CommentKind, now);
  }

  /** deleteNotificationOnUnlike: the notification with the like's id goes;
      deleting one that is not there changes nothing. */
  method DeleteNotificationOnUnlike(db: Db, likeId: Id)
    modifies db
    ensures db.notifications == old(db.notifications) - {likeId}
    ensures likeId !in old(db.notifications) ==> unchanged(db)
    ensures db.users == old(db.users) && db.screams == old(db.screams)
    ensures db.comments == old(db.comments) && db.likes == old(db.likes)
    ensures old(db.Consistent()) ==> db.Consistent()
  {
    assert likeId !in db.notifications ==> db.notifications - {likeId} == db.notifications;
    db.notifications := db.notifications - {likeId};
  }

  /** onUserImageChange: no write when `imageUrl` is unchanged; otherwise
      one batch that sets `userImage` to the new URL on every scream, comment
      and like the user wrote, and on nothing else. */
  method OnUserImageChange(db: Db, before: User, after: User)
    modifies db
    ensures before.imageUrl == after.imageUrl ==> unchanged(db)
    ensures before.imageUrl != after.imageUrl ==>
      && db.screams.Keys == old(db.screams.Keys)
      && (forall k :: k in db.screams ==>
            db.screams[k] == if old(db.screams)[k].userHandle == before.handle
                         then old(db.screams)[k].(userImage := after.imageUrl) else old(db.screams)[k])
      && db.comments.Keys == old(db.comments.Keys)
      && (forall k :: k in db.comments ==>
            db.comments[k] == if old(db.comments)[k].userHandle == before.handle
                         then old(db.comments)[k].(userImage := after.imageUrl) else old(db.comments)[k])
      && db.likes.Keys == old(db.likes.Keys)
      && (forall k :: k in db.likes ==>
            db.likes[k] == if old(db.likes)[k].userHandle == before.handle
                         then old(db.likes)[k].(userImage := Some(after.imageUrl)) else old(db.likes)[k])
    ensures db.users == old(db.users) && db.notifications == old(db.notifications)
    ensures old(db.Consistent()) ==> db.Consistent()
  {
    if before.imageUrl == after.imageUrl {
      return;
    }
    var url := after.imageUrl;
    var screams := BatchUpdate(db.screams, ScreamsBy(db.screams, before.handle), (s: Scream) => s.(userImage := url));
    var comments := BatchUpdate(db.comments, CommentsBy(db.comments, before.handle), (c: Comment) => c.(userImage := url));
    var likes := BatchUpdate(db.likes, LikesBy(db.likes, before.handle), (l: Like) => l.(userImage := Some(url)));
    if db.Consistent() {
      Invariants.RelinkFreeWritesKeepCounts(db.screams, db.comments, db.likes, screams, comments, likes);
    }
    db.screams, db.comments, db.likes := screams, comments, likes;  // batch.commit()
  }

  /** onScreamDelete: one batch deleting every comment, like and
      notification of the deleted scream; afterwards none is left and the
      records of other screams are as they were. */
  method OnScreamDelete(db: Db, screamId: Id)
    modifies db
    ensures CommentsOn(db.comments, screamId) == {} && LikesOn(db.likes, screamId) == {}
    ensures NotificationsOn(db.notifications, screamId) == {}
    ensures db.comments == old(db.comments) - CommentsOn(old(db.comments), screamId)
    ensures db.likes == old(db.likes) - LikesOn(old(db.likes), screamId)
    ensures db.notifications == old(db.notifications) - NotificationsOn(old(db.notifications), screamId)
    ensures db.users == old(db.users) && db.screams == old(db.screams)
    ensures old(db.Consistent()) && screamId !in old(db.screams) ==> db.Consistent()
  {
    var comments := BatchDelete(db.comments, CommentsOn(db.comments, screamId));
    var likes := BatchDelete(db.likes, LikesOn(db.likes, screamId));
    var notifications := BatchDelete(db.notifications, NotificationsOn(db.notifications, screamId));
    if db.Consistent() && screamId !in db.screams {
      Invariants.CascadeKeepsCounts(db.screams, db.comments, db.likes, screamId);
    }
    db.comments, db.likes, db.notifications := comments, likes, notifications;  // batch.commit()
  }
}
