/** A client of the handlers and triggers: user A posts, B likes and the
    like's trigger notifies A, B unlikes and the notification goes, A deletes
    the scream and the cascade leaves nothing of it. Every step is checked
    from the contracts alone. */
module Scenario {
  import opened Records
  import opened Store
  import Screams
  import Triggers

  method LikeUnlikeDelete() {
    var db := new Db();
    var reply := Screams.PostOneScream(db, "POST", "hello", "A", "a.png", 1, "P");
    assert reply == Done && db.screams["P"].likeCount == Num(0);
    assert db.Consistent();

    assert LikesOfPair(db.likes, "B", "P") == {};
    reply := Screams.LikeScream(db, "P", "B", "L");
    assert reply == Done && db.screams["P"].likeCount == Num(1);
    Triggers.CreateNotificationOnLike(db, "L", db.likes["L"], 2);
    assert db.notifications["L"] == Notification(2, "A", "B", false, "P", LikeKind);

    assert "L" in LikesOfPair(db.likes, "B", "P");
    reply := Screams.LikeScream(db, "P", "B", "L2");
    assert reply == Refused(AlreadyLiked);

    var removed;
    reply, removed := Screams.UnlikeScream(db, "P", "B");
    assert reply == Done && removed == Some("L");
    assert db.screams["P"].likeCount == Num(0);
    Triggers.DeleteNotificationOnUnlike(db, "L");
    assert "L" !in db.notifications;

    reply := Screams.DeleteScream(db, "P", "B");
    assert reply == Refused(WrongUser);
    reply := Screams.DeleteScream(db, "P", "A");
    Triggers.OnScreamDelete(db, "P");
    assert "P" !in db.screams && LikesOn(db.likes, "P") == {} && CommentsOn(db.comments, "P") == {};
    assert db.Consistent();
  }
}
