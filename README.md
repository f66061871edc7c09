# Social-Ape: consistency of the denormalised document store

Social-Ape is a small social-posting backend on Firebase. Users post
*screams*, and other users comment on them and like them. A scream carries
denormalised data: the `likeCount` and `commentCount` counters and the
author's `userImage`. HTTP handlers and Firestore triggers keep that data in
step with the `likes`, `comments`, `notifications` and `users` collections.

This project models those handlers and triggers as operations on a store of
five tables, each a finite map from document id to record. It proves what
each operation promises and which whole-store invariants it keeps:

- a scream's `likeCount` is the number of likes on it, and its
  `commentCount` the number of comments;
- there is at most one like per (user, scream) pair (the Like Guard);
- nobody is notified about their own like or comment;
- deleting a scream leaves none of its comments, likes or notifications;
- the profile-image fan-out touches exactly one author's records.

Layout, one module per file:

- `records.dfy` (`Records`): the documents, the JavaScript values a counter
  can hold (`Count`: absent, a number, or `NaN`), and the `where` filters.
- `invariants.dfy` (`Invariants`): the whole-store invariants and a
  preservation lemma for each kind of write.
- `store.dfy` (`Store`): class `Db` holding the five tables; the `orderBy`
  and plain queries; batch staging.
- `screams.dfy` (`Screams`): the scream handlers.
- `users.dfy` (`Users`): the user handlers.
- `triggers.dfy` (`Triggers`): the Firestore triggers.
- `as_written.dfy` (`AsWritten`): the two handlers whose promise chains
  behave differently from their evident intent (see Findings).
- `scenario.dfy` (`Scenario`): a client that posts, likes, unlikes and
  deletes, checked step by step from the contracts alone.

Modelling choices:

- **Atomic steps.** Each handler and trigger is one atomic step on `Db`.
  Reads come before writes, as in the source.
- **Handlers and triggers.** State-changing ones are methods with
  `modifies db`. Read-only queries are functions of the tables.
- **Counters.** These are JavaScript values.
  - `likeScream` reads an absent `likeCount` as 0.
  - `undefined + 1` and `undefined--` give `NaN`.
  - Under the invariants, `NaN` and negative counts never arise.
- **Inputs from outside.** `new Date()`, the ids Firestore generates for
  `add`, the authenticated requester (`request.user`) and the storage bucket
  name are parameters. A generated id is required to be unused anywhere in
  the store.
- **Batches.** A Firestore batch is staged with a loop over the query's
  documents and then committed as one assignment. A batch that updates a
  missing document fails as a whole.
- **Early returns.** In `likeScream` and `commentOnScream`, an early
  `return response.status(404)...` does not stop the promise chain. The
  handlers in `Screams` treat that return as the end of the request.
  `AsWritten` follows the chain as it actually runs.

## Model

| member | source | states |
|---|---|---|
| Screams.GetAllScreams | functions/handlers/screams.js:4-24 | every scream exactly once, each with its document id and data, newest `createdAt` first |
| Screams.GetScream | functions/handlers/screams.js:52-80 | "Scream not found" exactly when the scream is missing; otherwise the scream with its id, and the data of exactly the comment documents with that `screamId`, one entry per document, newest first |
| Screams.CommentsAnswer | functions/handlers/screams.js:62-73 | the data of exactly the comment documents with that `screamId`, one entry per document (the data of a query answer), newest first |
| Screams.PostOneScream | functions/handlers/screams.js:26-50 | a non-POST is refused with nothing written; otherwise exactly one scream is added, by the requester, with the requester's image and both counters 0, and the store invariants are kept |
| Screams.CommentOnScream | functions/handlers/screams.js:82-116 | non-POST, empty body and missing scream are refused with nothing written; otherwise exactly one comment is added and `commentCount` becomes old + 1, keeping the invariants |
| Screams.LikeScream | functions/handlers/screams.js:118-167 | missing scream and an already-liked pair are refused with nothing written; otherwise exactly one like `{screamId, userHandle}` is added and `likeCount` becomes old + 1 (absent read as 0), keeping the invariants |
| Screams.UnlikeScream | functions/handlers/screams.js:169-209 | missing scream and an unliked pair are refused with nothing written; otherwise exactly one like of the pair is deleted and `likeCount` is decremented; in a consistent store the pair then has no like and the count equals the likes left |
| Screams.DeleteScream | functions/handlers/screams.js:211-230 | "scream does not exist" and "wrong user" delete nothing; otherwise only that scream is removed |
| Triggers.Notify | functions/index.js:54-67 | a notification keyed by the triggering id, to the scream's author, is written exactly when the scream exists and the sender is not its author; a repeat writes the same key; no self-notification arises |
| Triggers.CreateNotificationOnLike | functions/index.js:47-73 | notification `like.id` with recipient = author, sender = liker, unread, the like's `screamId`, type like; nothing for a missing scream or a self-like |
| Triggers.CreateNotificationOnComment | functions/index.js:88-114 | the same rule with type comment, keyed by the comment's id |
| Triggers.DeleteNotificationOnUnlike | functions/index.js:75-86 | exactly the notification with the like's id is removed; an absent id changes nothing |
| Triggers.OnUserImageChange | functions/index.js:116-162 | no write when `imageUrl` is unchanged; otherwise `userImage` is set to the new URL on exactly the screams, comments and likes of the old handle, every other record and field is unchanged, and the invariants are kept |
| Triggers.OnScreamDelete | functions/index.js:164-202 | afterwards no comment, like or notification carries the `screamId`; every other record is unchanged; with the scream already gone the invariants are kept |
| Users.Signup | functions/handlers/users.js:23-78 | a taken handle is refused with nothing written; otherwise `users[handle]` holds the handle, email, time, uid and the default `no-img.png` URL |
| Users.MarkNotificationsRead | functions/handlers/users.js:257-272 | all or nothing: when every listed id exists, exactly those notifications become read and nothing else changes; otherwise nothing is written |
| Users.GetAuthenticatedUser | functions/handlers/users.js:117-161 | no answer without the requester's user document; otherwise their record, the data of exactly their like documents, one entry per document, and min(10, their count) notifications addressed to them, each with its id, distinct, newest first |
| Users.NewestNotificationsAnswered | functions/handlers/users.js:135-140 | the notifications answered are the newest: every notification of the user left out is no newer than any answered |
| Users.LikesAnswer | functions/handlers/users.js:124-134 | the data of exactly the like documents whose `userHandle` is the requester, one entry per document (the data of a query answer) |
| Users.Inbox | functions/handlers/users.js:135-153 | min(10, their count) notifications addressed to the requester, each with its id and data, distinct, newest first |
| Users.NewestPrefix | functions/handlers/users.js:138-140 | `.limit(n)` after a descending order keeps the first n, still newest first and distinct, and drops nothing newer than what it keeps |
| Users.GetUserDetails | functions/handlers/users.js:220-255 | "User not found" exactly for an unknown handle; otherwise the user's record and exactly their screams, with ids, newest first |
| Store.OrderByCreatedDesc | functions/handlers/screams.js:62-66 | an `orderBy("createdAt", "desc")` query answers every matching document exactly once, with its id and data and nothing else, newest first |
| Store.PrependAnswer | functions/handlers/screams.js:69-73 | one matching document followed by an answer for the others answers the whole query |
| Store.DatasOfAnswer | functions/handlers/screams.js:69-73 | the data pushed from a query's answer are exactly the matching records, one per document |
| Store.DatasNewestFirst | functions/handlers/screams.js:69-73 | pushing the data in answer order keeps newest first |
| Store.ListDocs | functions/handlers/users.js:124-127 | a query without `orderBy` answers every matching document exactly once |
| Store.NewestExists | functions/handlers/screams.js:64 | every non-empty set of documents has a newest one, so the descending order exists |
| Store.PrependNewest | functions/handlers/screams.js:64 | a document no older than a newest-first sequence can head it |
| Store.BatchUpdate | functions/index.js:126-153 | staging an update for each queried document changes exactly those documents, with the same keys |
| Store.BatchDelete | functions/index.js:174-194 | staging a delete for each queried document removes exactly those and keeps the rest as they were |
| Invariants.LikesOnAfterAdd | functions/handlers/screams.js:147-151 | adding a like under a fresh id adds exactly one to its scream's likes and changes no other scream's |
| Invariants.CommentsOnAfterAdd | functions/handlers/screams.js:107 | adding a comment under a fresh id adds exactly one to its scream's comments and changes no other scream's |
| Invariants.LikeKeepsCounts | functions/handlers/screams.js:127-156 | a like under a fresh id with the old-or-0 plus one counter update keeps every `likeCount` equal to its number of likes |
| Invariants.UnlikeKeepsCounts | functions/handlers/screams.js:189-198 | deleting one like and decrementing gives the new number of likes, never `NaN` or negative, and keeps every count right |
| Invariants.GuardedLikeKeepsOnePerPair | functions/handlers/screams.js:143-151 | adding a like only when the pair has none keeps at most one like per (user, scream) |
| Invariants.CommentKeepsCounts | functions/handlers/screams.js:104-107 | a comment under a fresh id with `commentCount + 1` keeps every `commentCount` equal to its number of comments |
| Invariants.PostKeepsCounts | functions/handlers/screams.js:30-40 | a new scream with counters 0 keeps every count right |
| Invariants.CascadeKeepsCounts | functions/index.js:168-194 | once the scream is gone, removing its comments and likes keeps every other count right and one like per pair |
| Invariants.RelinkFreeWritesKeepCounts | functions/index.js:122-153 | rewriting fields other than `screamId` and `userHandle` keeps all counts and one like per pair |
| Invariants.MarkedRead | functions/handlers/users.js:258-262 | the batch's effect: the same notifications, `read` true on the listed ids and unchanged elsewhere, every other field unchanged |
| Invariants.MarkedReadIdempotent | functions/handlers/users.js:258-264 | marking read twice equals marking once; no self-notification is kept |
| AsWritten.LikeScreamAsWritten | functions/handlers/screams.js:118-167 | as written: the like `{screamId, userHandle}` is always stored under the new id, whatever the store holds; the counter gets old-or-0 plus 1 only when the scream exists; nothing else changes |
| AsWritten.CommentOnScreamAsWritten | functions/handlers/screams.js:82-116 | as written: non-POST and empty body write nothing; otherwise the comment is always stored under the new id, and `commentCount` gets + 1 only when the scream exists; nothing else changes |
| AsWritten.LikeTwiceDuplicates | functions/handlers/screams.js:143-151 | as written, liking an already-liked pair adds a second like of that pair, breaking one like per pair |
| AsWritten.LikeMissingScreamOrphans | functions/handlers/screams.js:139-151 | as written, liking a missing scream stores a like of a scream that does not exist |
| AsWritten.CommentMissingScreamOrphans | functions/handlers/screams.js:101-107 | as written, commenting on a missing scream stores a comment of a scream that does not exist |

## Left out

- HTTP routing, Express and the `FBAuth` middleware (functions/index.js:1-45): status codes and JSON shapes are reduced to a tagged `Reply`/`Result`. The `likeCOunt` key spelled so in getAllScreams' answer (functions/handlers/screams.js:16) is a JSON-shaping detail and is not modelled.
- `login` and the Firebase Auth steps of `signup` (`createUserWithEmailAndPassword`, `getIdToken`, functions/handlers/users.js:47-59): these are calls to an external service. The uid is an input and the token is not modelled.
- `validateSignupData`, `reduceUserDetails` and the rest of functions/util are not part of this model. So `signup` starts after validation, and `addUserDetails` (functions/handlers/users.js:103-115) is left out.
- `uploadImage` (functions/handlers/users.js:163-218): it streams a multipart upload to storage under a random file name. Only its net effect matters, a new `users[handle].imageUrl`, and `Triggers.OnUserImageChange` takes that change as its input.
- Concurrency: promise scheduling, the order in which triggers are delivered, and races between concurrent read-modify-write counter updates are not modelled. Each handler and trigger is one sequential atomic step.
- Logging and `catch` handlers, including the `response` references inside triggers, which have no meaning there.
- Firestore's 500-write batch limit, and how timestamps are produced: `createdAt` is an ordered parameter.
- Order among equal `createdAt`, and the order of queries without `orderBy`: the model fixes the members and leaves the order open.
- Screams.UnlikeScream: it deletes some like of the pair, not necessarily the first in Firestore's document-id order. Under the one-like-per-pair invariant there is only one to choose.
- Users.GetAuthenticatedUser: the source has no explicit branch for a missing user document. Its chain fails on the undefined query result, and the model answers that failure as `Err(NoCredentials)`.

## Findings

| source | as written | input that shows it | evidently intended | confidence | as-written member | corrected member |
|---|---|---|---|---|---|---|
| functions/handlers/screams.js:143-147 | the duplicate test reads `doc.exists` on a query result, which has no `exists`, so the test never fires and every like is added | a store holding scream P and a like of P by user B; B likes P again: a second like of (B, P) is stored and `likeCount` becomes 2 | "scream already liked" with nothing written, as `unlikeScream`'s `doc.empty` test does | high (not executed) | AsWritten.LikeScreamAsWritten, AsWritten.LikeTwiceDuplicates | Screams.LikeScream, Invariants.GuardedLikeKeepsOnePerPair |
| functions/handlers/screams.js:139-153 | the 404 return for a missing scream passes the response object on to the next step, whose `exists` test fails, so the like is added; only the counter update then throws | an empty `screams` table; B likes P: a like of the missing scream P is stored | "scream not found" with nothing written | high (not executed) | AsWritten.LikeScreamAsWritten, AsWritten.LikeMissingScreamOrphans | Screams.LikeScream |
| functions/handlers/screams.js:101-107 | the 404 return for a missing scream does not stop the chain, and the comment is added | an empty `screams` table; a POST comment "hi" on P: a comment of the missing scream P is stored | "scream not found" with nothing written | high (not executed) | AsWritten.CommentOnScreamAsWritten, AsWritten.CommentMissingScreamOrphans | Screams.CommentOnScream |
