/** The user handlers: the store side of signup, marking notifications read,
    and the two read-only user queries. */
module Users {
  import opened Records
  import opened Store
  import Invariants

  /** The file name of the default profile image. */
  const NoImg := "no-img.png"

  /** The download URL of a file in the project's storage bucket. */
  function StorageUrl(bucket: string, file: string): Url {
    "https://firebasestorage.googleapis.com/v0/b/" + bucket + "/o/" + file + "?alt=media"
  }

  datatype UserDetails = UserDetails(user: User, screams: seq<Doc<Scream>>)

  datatype UserData = UserData(credentials: User, likes: seq<Like>, notifications: seq<Doc<Notification>>)

  /** How many notifications getAuthenticatedUser returns at most. */
  const NotificationLimit := 10

  /** signup, once the request has passed validation and the authentication
      service has issued `userId`: a taken handle is refused with nothing
      written; otherwise `users[handle]` is stored with the handle, the email
      and the default image. */
  method Signup(db: Db, handle: Handle, email: string, now: Timestamp, userId: string, bucket: string)
    returns (reply: Reply)
    modifies db
    ensures handle in old(db.users) <==> reply == Refused(HandleTaken)
    ensures handle in old(db.users) ==> unchanged(db)
    ensures handle !in old(db.users) ==>
      && reply == Done
      && db.users == old(db.users)[handle := User(handle, email, now, StorageUrl(bucket, NoImg), userId)]
    ensures db.screams == old(db.screams) && db.comments == old(db.comments)
    ensures db.likes == old(db.likes) && db.notifications == old(db.notifications)
  {
    if handle in db.users {
      return Refused(HandleTaken);
    }
    db.users := db.users[handle := User(handle, email, now, StorageUrl(bucket, NoImg), userId)];
    reply := Done;
  }

  /** markNotificationsRead: one batch with an update `read: true` per listed
      id. A batch that updates a document that does not exist fails as a
      whole, so either every listed notification is marked and nothing else
      changes, or nothing is written. */
  method MarkNotificationsRead(db: Db, ids: seq<Id>) returns (reply: Reply)
    modifies db
    ensures reply == Done <==> forall i :: 0 <= i < |ids| ==> ids[i] in old(db.notifications)
    ensures reply != Done ==> reply == Refused(BatchRejected) && unchanged(db)
    ensures reply == Done ==> db.notifications == Invariants.MarkedRead(old(db.notifications), set i | i in ids)
    ensures db.users == old(db.users) && db.screams == old(db.screams)
    ensures db.comments == old(db.comments) && db.likes == old(db.likes)
    ensures old(db.Consistent()) ==> db.Consistent()
  {
    var listed := set i | i in ids;
    if !(listed <= db.notifications.Keys) {
      return Refused(BatchRejected);
    }
    var staged := BatchUpdate(db.notifications, listed, (n: Notification) => n.(read := true));
    assert staged == Invariants.MarkedRead(db.notifications, listed);
    Invariants.MarkedReadIdempotent(db.notifications, listed);
    db.notifications := staged;  // batch.commit()
    reply := Done;
  }

  /** getAuthenticatedUser: nothing without the requester's user document;
      otherwise the requester's record, exactly the likes they made, and the
      newest ten (at most) notifications addressed to them, each with its id,
      newest first. */
  ghost function GetAuthenticatedUser(
    users: map<Handle, User>, likes: map<Id, Like>, notifications: map<Id, Notification>, handle: Handle)
    : (r: Result<UserData>)
    ensures r.Err? <==> handle !in users
    ensures r.Err? ==> r.failure == NoCredentials
    ensures r.Ok? ==> r.value.credentials == users[handle]
    ensures r.Ok? ==> |r.value.likes| == |LikesBy(likes, handle)|
    ensures r.Ok? ==> forall i :: 0 <= i < |r.value.likes| ==>
      r.value.likes[i].userHandle == handle && r.value.likes[i] in likes.Values
    ensures r.Ok? ==> forall k :: k in likes && likes[k].userHandle == handle ==> likes[k] in r.value.likes
    ensures r.Ok? ==> exists docs: seq<Doc<Like>> ::
      Answers(docs, likes, LikesBy(likes, handle)) && r.value.likes == Datas(docs)
    ensures r.Ok? ==> |r.value.notifications| <= NotificationLimit
    ensures r.Ok? ==> |r.value.notifications| == if |NotificationsTo(notifications, handle)| < NotificationLimit
                                                 then |NotificationsTo(notifications, handle)| else NotificationLimit
    ensures r.Ok? ==> forall i :: 0 <= i < |r.value.notifications| ==>
      && r.value.notifications[i].id in notifications
      && r.value.notifications[i].data == notifications[r.value.notifications[i].id]
      && r.value.notifications[i].data.recipient == handle
    ensures r.Ok? ==> DistinctIds(r.value.notifications) && NewestFirst(r.value.notifications, NotificationTime)
  {
    if handle !in users then Err(NoCredentials)
    else Ok(UserData(users[handle], LikesAnswer(likes, handle), Inbox(notifications, handle)))
  }

  /** The likes query of getAuthenticatedUser: the data of every like the
      user made, one entry per like document (no `orderBy`, so in an order the
      model leaves open). */
  ghost function LikesAnswer(likes: map<Id, Like>, handle: Handle): (r: seq<Like>)
    ensures |r| == |LikesBy(likes, handle)|
    ensures forall i :: 0 <= i < |r| ==> r[i].userHandle == handle && r[i] in likes.Values
    ensures forall k :: k in likes && likes[k].userHandle == handle ==> likes[k] in r
    ensures exists docs: seq<Doc<Like>> :: Answers(docs, likes, LikesBy(likes, handle)) && r == Datas(docs)
  {
    var docs := ListDocs(likes, LikesBy(likes, handle));
    DatasOfAnswer(likes, LikesBy(likes, handle), docs);
    Datas(docs)
  }

  /** The notifications query of getAuthenticatedUser: those addressed to the
      user, newest first, at most ten, each with its id. */
  ghost function Inbox(notifications: map<Id, Notification>, handle: Handle): (r: seq<Doc<Notification>>)
    ensures |r| == if |NotificationsTo(notifications, handle)| < NotificationLimit
                   then |NotificationsTo(notifications, handle)| else NotificationLimit
    ensures forall i :: 0 <= i < |r| ==>
      r[i].id in notifications && r[i].data == notifications[r[i].id] && r[i].data.recipient == handle
    ensures DistinctIds(r) && NewestFirst(r, NotificationTime)
  {
    var all := OrderByCreatedDesc(notifications, NotificationsTo(notifications, handle), NotificationTime);
    NewestPrefix(all, NotificationLimit, NotificationTime)
  }

  /** The ten notifications getAuthenticatedUser answers are the newest:
      every notification of the user it leaves out is no newer than any it
      answers. */
  lemma NewestNotificationsAnswered(
    users: map<Handle, User>, likes: map<Id, Like>, notifications: map<Id, Notification>, handle: Handle)
    requires handle in users
    ensures var ns := GetAuthenticatedUser(users, likes, notifications, handle).value.notifications;
      forall k :: k in NotificationsTo(notifications, handle) && Doc(k, notifications[k]) !in ns ==>
        forall i :: 0 <= i < |ns| ==> notifications[k].createdAt <= ns[i].data.createdAt
  {
    var where := NotificationsTo(notifications, handle);
    var all := OrderByCreatedDesc(notifications, where, NotificationTime);
    var ns := NewestPrefix(all, NotificationLimit, NotificationTime);
    assert GetAuthenticatedUser(users, likes, notifications, handle).value.notifications == ns;
    forall k | k in where && Doc(k, notifications[k]) !in ns
      ensures forall i :: 0 <= i < |ns| ==> notifications[k].createdAt <= ns[i].data.createdAt
    {
      assert Doc(k, notifications[k]) in all;
    }
  }


  /** `.limit(n)` after `.orderBy("createdAt", "desc")`: the first `n`
      documents, and every document left out is no newer than any kept. */
  ghost function NewestPrefix<T>(all: seq<Doc<T>>, n: nat, createdAt: T -> Timestamp): (r: seq<Doc<T>>)
    requires NewestFirst(all, createdAt)
    ensures |r| == if |all| < n then |all| else n
    ensures forall i :: 0 <= i < |r| ==> r[i] == all[i]
    ensures NewestFirst(r, createdAt)
    ensures DistinctIds(all) ==> DistinctIds(r)
    ensures forall d :: d in all && d !in r ==> forall i :: 0 <= i < |r| ==> createdAt(d.data) <= createdAt(r[i].data)
  {
    var r := if |all| < n then all else all[..n];
    assert forall d :: d in all && d !in r ==> exists p :: |r| <= p < |all| && all[p] == d;
    r
  }

  /** getUserDetails: "User not found" for an unknown handle; otherwise the
      user's record and exactly that user's screams, each with its id, newest
      first. */
  ghost function GetUserDetails(users: map<Handle, User>, screams: map<Id, Scream>, handle: Handle)
    : (r: Result<UserDetails>)
    ensures r.Err? <==> handle !in users
    ensures r.Err? ==> r.failure == UserNotFound
    ensures r.Ok? ==> r.value.user == users[handle]
    ensures r.Ok? ==> |r.value.screams| == |ScreamsBy(screams, handle)|
    ensures r.Ok? ==> forall i :: 0 <= i < |r.value.screams| ==>
      && r.value.screams[i].id in screams
      && r.value.screams[i].data == screams[r.value.screams[i].id]
      && r.value.screams[i].data.userHandle == handle
    ensures r.Ok? ==> forall k :: k in screams && screams[k].userHandle == handle ==> Doc(k, screams[k]) in r.value.screams
    ensures r.Ok? ==> forall i, j :: 0 <= i < j < |r.value.screams| ==>
      && r.value.screams[i].id != r.value.screams[j].id
      && r.value.screams[j].data.createdAt <= r.value.screams[i].data.createdAt
  {
    if handle !in users then Err(UserNotFound)
    else
      var docs := OrderByCreatedDesc(screams, ScreamsBy(screams, handle), ScreamTime);
      assert NewestFirst(docs, ScreamTime);
      Ok(UserDetails(users[handle], docs))
  }
}
