/** The documents of the five Firestore collections (`users`, `screams`,
    `comments`, `likes`, `notifications`), the JavaScript number fields they
    carry, and the `where` filters the handlers and triggers query them with. */
module Records {

  type Id = string
  type Handle = string
  type Url = string

  /** `createdAt` is an ISO-8601 string; strings of that one format compare in
      time order, so the model keeps only the order, as a number. */
  type Timestamp = nat

  datatype Option<T> = None | Some(value: T)

  /** A numeric document field as JavaScript sees it: absent (`undefined`),
      a number, or `NaN` (what `undefined + 1` and `undefined--` produce). */
  datatype Count = Missing | Num(n: int) | NaN

  /** `x + 1` and `x++` */
  function Increment(c: Count): Count {
    match c
    case Num(n) => Num(n + 1)
    case _ => NaN
  }

  /** `x--` */
  function Decrement(c: Count): Count {
    match c
    case Num(n) => Num(n - 1)
    case _ => NaN
  }

  /** likeScream's default for a scream without a `likeCount` field */
  function OrZero(c: Count): Count {
    if c == Missing then Num(0) else c
  }

  datatype User = User(handle: Handle, email: string, createdAt: Timestamp, imageUrl: Url, userId: string)

  datatype Scream = Scream(
    body: string, userHandle: Handle, createdAt: Timestamp, userImage: Url,
    likeCount: Count, commentCount: Count)

  datatype Comment = Comment(body: string, createdAt: Timestamp, screamId: Id, userHandle: Handle, userImage: Url)

  /** likeScream writes only `screamId` and `userHandle`; `userImage` appears
      once onUserImageChange has touched the like. */
  datatype Like = Like(screamId: Id, userHandle: Handle, userImage: Option<Url>)

  /** the `type` field: "like" or "comment" */
  datatype Kind = LikeKind | CommentKind

  datatype Notification = Notification(
    createdAt: Timestamp, recipient: Handle, sender: Handle, read: bool, screamId: Id, kind: Kind)

  /** The `createdAt` sort keys of `orderBy("createdAt", "desc")`. */
  function ScreamTime(s: Scream): Timestamp { s.createdAt }
  function CommentTime(c: Comment): Timestamp { c.createdAt }
  function NotificationTime(n: Notification): Timestamp { n.createdAt }

  /** A document of a query result: its id and its data. */
  datatype Doc<T> = Doc(id: Id, data: T)

  /** The error replies of the handlers. */
  datatype Failure =
    | MethodNotAllowed     // "Method not allowed"
    | EmptyBody            // "Must not be empty"
    | ScreamNotFound       // "scream not found" / "Scream not found"
    | AlreadyLiked         // "scream already liked"
    | NotLiked             // "scream not liked"
    | ScreamDoesNotExist   // "scream does not exist"
    | WrongUser            // "wrong user"
    | HandleTaken          // "this handle is already taken"
    | UserNotFound         // "User not found"
    | NoCredentials        // getAuthenticatedUser without a user document: the chain fails with a 500
    | BatchRejected        // a committed batch updates a document that does not exist

  datatype Reply = Done | Refused(failure: Failure)

  datatype Result<T> = Ok(value: T) | Err(failure: Failure)

  // The `where(field, "==", value)` filters of the queries, as sets of document ids.

  function CommentsOn(comments: map<Id, Comment>, screamId: Id): set<Id> {
    set k | k in comments && comments[k].screamId == screamId
  }

  function LikesOn(likes: map<Id, Like>, screamId: Id): set<Id> {
    set k | k in likes && likes[k].screamId == screamId
  }

  function NotificationsOn(notifications: map<Id, Notification>, screamId: Id): set<Id> {
    set k | k in notifications && notifications[k].screamId == screamId
  }

  /** the Like Guard's query: `where userHandle == handle where screamId == screamId` */
  function LikesOfPair(likes: map<Id, Like>, handle: Handle, screamId: Id): set<Id> {
    set k | k in likes && likes[k].userHandle == handle && likes[k].screamId == screamId
  }

  function ScreamsBy(screams: map<Id, Scream>, handle: Handle): set<Id> {
    set k | k in screams && screams[k].userHandle == handle
  }

  function CommentsBy(comments: map<Id, Comment>, handle: Handle): set<Id> {
    set k | k in comments && comments[k].userHandle == handle
  }

  function LikesBy(likes: map<Id, Like>, handle: Handle): set<Id> {
    set k | k in likes && likes[k].userHandle == handle
  }

  function NotificationsTo(notifications: map<Id, Notification>, handle: Handle): set<Id> {
    set k | k in notifications && notifications[k].recipient == handle
  }
}
