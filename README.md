# Friend graph and post store of a social-network backend

This project models the two controllers of an Express/Mongoose backend:
the friend graph (`controllers/users.js`) and the post store
(`controllers/posts.js`). The document database is two in-memory
collections. Each collection is a `Documents.Table`: a map from id to
record, plus the storage order that `find()` returns documents in. A
`save()` replaces a stored document where it stands. A new document goes
at the end of the storage order.

- `FriendGraph` holds the user record and the pure handlers as functions
  over the users collection: the self-only profile read, friend-list
  resolution and the "not friends" query. It also holds the toggle
  specification `Toggled` and the lemmas about it: symmetry is preserved,
  for a pair that lists each other or neither, two toggles restore who
  lists whom (and, if neither user listed the other, restore the lists
  exactly). When only the friend lists the caller, two toggles drop the
  edge; when only the caller lists the friend, two toggles make it mutual.
  No other user changes, and the remaining entries keep their order.
- `PostStore` holds the post and comment records and the pure handlers:
  the feed, the per-author filter and the statistics. It also holds the
  like toggle on the `likes` map. The statistics are computed as the
  source does, with a left fold (`Reduce`), and proved equal to a
  reference sum (`Total`). Lemmas say how each state-changing handler
  moves the statistics.
- `Handlers.Store` is the database object. Its methods load a record,
  edit it in memory and save it back, as `addRemoveFriends`, `CreatePost`,
  `likePosts` and `addComment` do. Each returns the status-tagged response
  (200/201/404 with a payload or a message). Its `ensures` state the whole
  new state of both collections.

Inputs that the source takes from its environment are parameters here:
- the authenticated user's id (`req.user._id`, set by the auth middleware);
- the id the database assigns to a new post (`newId`, required fresh);
- the uploaded file's name (`file`);
- the time of a comment (`now`, for `new Date()`).

Where the code differs from what its schema and route documentation
suggest, the model follows the code:
- `CreatePost` snapshots `user.userPicturePath`. The user schema has no such
  field (it has `picturePath`), so the stored snapshot is always absent
  (`userPicturePath == None`).
- `addComment` reads the body field `commentText`. The route documentation
  names it `comment`.
- The like set is stored as a map from user id to `true`. It is modelled as
  that map. `Handlers.Store.Valid` keeps the invariant that every stored
  value is `true`, and the "exactly one" and "two toggles restore" results
  are proved under that invariant.

## Model

| member | source | states |
|---|---|---|
| `FriendGraph.GetUser` | controllers/users.js:4-16 | 403 "Access denied" whenever the caller's id differs from the requested id, whatever the store holds. Otherwise 404 if the id is not stored, or 200 with the stored record. Success holds exactly when the ids match and the user exists. |
| `FriendGraph.Resolve` | controllers/users.js:30-45 | Never returns more entries than the friend list has ids. Each entry is built by `Summary`, the `{ _id, firstName, lastName, picturePath, location, occupation }` projection (controllers/users.js:36-45, 87-96, 120-129). Its full contract is `ResolveExactly`. |
| `FriendGraph.ResolveExactly` | controllers/users.js:30-45 | An id appears in the result exactly when it is in the friend list and resolves to a stored user. It appears as many times as the friend list holds it, so a duplicated friend id gives a duplicated entry. Result ids keep friend-list order (subsequence). Each entry is the `_id`/name/`picturePath`/`location`/`occupation` projection of that stored user. |
| `FriendGraph.ResolveConcat` | controllers/users.js:30-34 | Resolution works one id at a time: resolving `a + b` is resolving `a` followed by resolving `b`. |
| `FriendGraph.GetUserFriends` | controllers/users.js:23-49 | 404 "User not found" exactly for an unknown user. Otherwise 200 with the user's friends that still resolve, in friend-list order, each projected. Each resolving id appears as often as the friend list holds it. |
| `FriendGraph.NotFriends` | controllers/users.js:114-129 | Never returns more entries than the scan has users. Its full contract is `NotFriendsExactly`. |
| `FriendGraph.NotFriendsExactly` | controllers/users.js:114-129 | Keeps exactly the scanned users whose id differs from `id` and is not in the friend list, in scan order. If the scan has no repeats, neither does the result. Each entry is projected from the stored user. |
| `FriendGraph.GetNotFriends` | controllers/users.js:106-132 | 404 exactly for an unknown user. Otherwise 200 with exactly the stored users other than `id` and not in `id`'s friend list, each once, in storage order. |
| `FriendGraph.FriendsAndNotFriendsPartition` | controllers/users.js:109-129 | For a user who does not list themselves, the friends resolved by `getUserFriends` (controllers/users.js:26-45), the non-friends returned by `getNotFriends` and the user together make up all stored users, with no overlap. |
| `FriendGraph.Without` | controllers/users.js:70-71 | The filtered list is never longer than the original. Its full contract is `WithoutExactly`. |
| `FriendGraph.WithoutExactly` | controllers/users.js:70-71 | The `filter` removes every copy of the id, keeps every other id as often as it occurred, and keeps the remaining order (subsequence). |
| `FriendGraph.WithoutAbsent` | controllers/users.js:70-71 | Filtering out an id that is not in the list leaves the list unchanged. |
| `FriendGraph.WithoutConcat` | controllers/users.js:70-71 | The filter distributes over concatenation. |
| `FriendGraph.Toggled` | controllers/users.js:68-79 | Keys are unchanged and no third user's record changes. Only the two `friends` fields change. If `friendId` was in the user's list, neither list keeps any copy of the other and the remaining entries keep their order and multiplicity. Otherwise `friendId` is appended to the user's list and `id` to the friend's list. |
| `FriendGraph.ToggleKeepsOtherEntries` | controllers/users.js:68-76 | A toggle changes, for any user, whether they list any id only for the toggled pair itself. |
| `FriendGraph.TogglePairSymmetry` | controllers/users.js:68-79 | For any two users, if each lists the other exactly when the other lists them before the toggle, that still holds after. The toggled pair is symmetric afterwards whatever it was before. |
| `FriendGraph.ToggleKeepsSymmetry` | controllers/users.js:68-79 | A toggle preserves a symmetric friend graph. |
| `FriendGraph.ToggleTwiceRestores` | controllers/users.js:68-76 | Suppose neither user lists the other. Then two toggles on the same pair restore the users collection exactly. |
| `FriendGraph.ToggleTwiceRestoresMembership` | controllers/users.js:68-76 | Suppose the pair lists each other or neither does. Then after two toggles every user lists exactly the ids they listed before, and only the two friend lists change. If the pair listed each other, each ends up once at the end of the other's list, with its earlier copies removed. |
| `FriendGraph.ToggleTwiceDropsOneSidedEdge` | controllers/users.js:68-76 | Suppose only the friend lists the user. Then after two toggles neither lists the other: the first toggle checks only the user's list and appends a second copy to the friend's list, and the second removes every copy. |
| `FriendGraph.ToggleTwiceMakesOneSidedEdgeMutual` | controllers/users.js:68-76 | Suppose only the user lists the friend. Then after two toggles each lists the other: the first toggle removes the friend from the user's list and nothing from the friend's, and the second appends on both sides. |
| `FriendGraph.ToggleTwiceReorders` | controllers/users.js:68-76 | A concrete mutual pair where two toggles turn the list `["b", "c"]` into `["c", "b"]`, so two toggles need not restore list order. |
| `Handlers.Store.AddRemoveFriends` | controllers/users.js:57-98 | 404 "User or friend not found" and no change unless both users exist. Otherwise: the users collection becomes `Toggled` of the old one, storage order is kept, posts are unchanged, and the reply is the user's updated list resolved against the saved collection. A symmetric graph stays symmetric. |
| `Handlers.ToggleFriendTwice` | controllers/users.js:68-79 | Two `AddRemoveFriends` calls on a pair that did not list each other leave both collections as they were. |
| `Handlers.Store.CreatePost` | controllers/posts.js:5-27 | 404 "User not found" and no change for an unknown author. Otherwise exactly one post is added, at the end of storage order, with 201 and the new post. Its `userId`, names and `location` come from the author, plus the given description. `picturePath` is the file name or `""`. The author-picture snapshot is absent, `likes` is empty and `comments` is empty. |
| `PostStore.NewPost` | controllers/posts.js:13-23 | The new record belongs to the author, and starts with an empty (hence `true`-only) like map and no comments. |
| `PostStore.GetFeedPosts` | controllers/posts.js:34-37 | 200 with every stored post once, in storage order, each with its stored fields. |
| `PostStore.UserPosts` | controllers/posts.js:46 | The author filter never returns more posts than it scans. Its full contract is `UserPostsExactly`. |
| `PostStore.UserPostsExactly` | controllers/posts.js:46 | The author filter keeps each post by `userId` exactly as often as it occurs and drops every other post, keeping order. |
| `PostStore.UserPostsConcat` | controllers/posts.js:46 | The author filter distributes over concatenation. |
| `PostStore.GetUserPosts` | controllers/posts.js:42-48 | 200 with exactly the stored posts whose `userId` is the argument, in storage order. |
| `PostStore.ToggleLike` | controllers/posts.js:64-69 | `Liked` is the truthiness test `likes.get(userId)` (controllers/posts.js:64-65). A truthy entry for the caller is deleted; otherwise the caller's entry is set to `true`. Every other user's entry is unchanged. |
| `PostStore.ToggleLikeCount` | controllers/posts.js:64-69 | On a `true`-only like map, a toggle keeps the map `true`-only and changes its size by exactly one: down if the caller was present, up if not. |
| `PostStore.ToggleLikeTwice` | controllers/posts.js:64-69 | On a `true`-only like map, two toggles by the same user restore the map. |
| `Handlers.Store.LikePosts` | controllers/posts.js:56-72 | 404 "Post not found" and no change for an unknown post. Otherwise only that post's `likes` changes, to its toggle. Storage order and other posts are unchanged. The reply is 200 with the saved post. The `true`-only invariant is kept. |
| `Handlers.LikeTwice` | controllers/posts.js:64-71 | Two `LikePosts` calls by the same user on the same post leave both collections as they were. |
| `Handlers.Store.AddComment` | controllers/posts.js:79-96 | 404 "Post not found" and no change for an unknown post. Otherwise that post's comments grow by one, at the end, holding the caller's id, `commentText` and the time. Earlier comments, other posts and storage order are unchanged. The reply is 200 with the saved post. |
| `PostStore.Reduce` | controllers/posts.js:109-110 | The fold never drops below its accumulator. Its exact value is stated by `ReduceIsTotal`. |
| `PostStore.ReduceIsTotal` | controllers/posts.js:109-110 | The `reduce` left fold from an accumulator equals the accumulator plus the sum. |
| `PostStore.TotalConcat` | controllers/posts.js:109-110 | The sum of a concatenation is the sum of the parts. |
| `PostStore.CountUserPosts` | controllers/posts.js:103-118 | Over the posts by `userId`: `totalPosts` is their count, `totalLikes` the sum of their like-map sizes, `totalComments` the sum of their comment-list lengths. |
| `PostStore.CountMatchingPosts` | controllers/posts.js:106-108 | With distinct ids, the length of the author filter is the number of distinct ids of that author's posts. |
| `PostStore.TotalPostsIsStoredCount` | controllers/posts.js:106-108 | `totalPosts` equals the number of stored posts whose `userId` is the argument. |
| `PostStore.StatsAfterUpdate` | controllers/posts.js:103-110 | Replacing a post with one by the same author moves only that author's like and comment totals, by the difference. Every other user's statistics are unchanged. |
| `PostStore.LikeMovesStatsByOne` | controllers/posts.js:64-71 | A like toggle moves the post author's `totalLikes` by exactly one. It leaves their other totals unchanged, and all of every other user's statistics. |
| `PostStore.CommentAddsOne` | controllers/posts.js:87-94 | A comment adds exactly one to the post author's `totalComments` and changes nothing else in any user's statistics. |
| `PostStore.CreateAddsOnePost` | controllers/posts.js:13-25 | A new post adds one to its author's `totalPosts`. It leaves every like and comment total, and every other user's post count, unchanged. |
| `Documents.Table.Find` | controllers/users.js:13-14 | `findById` returns a document exactly when the id is stored, and then the stored one. |
| `Documents.Table.All` | controllers/posts.js:36 | `find()` with no filter returns every stored document once, in storage order, each with its stored fields. |
| `Documents.Table.Save` | controllers/posts.js:25 | `save()` keeps the collection well formed. It stores the document under its id. Storage order is unchanged for a stored id, and a new id goes at the end. |

## Left out

- The catch-all 400/500 responses and console logging. These paths are taken only when the database or the runtime throws, which the in-memory model cannot do.
- `Promise.all` concurrency and the asynchronous awaits. Each handler is one atomic step here, so the gap between the two saves of `addRemoveFriends`, where one can fail after the other succeeds, is not modelled.
- Self-friending (`id == friendId`). Two separately loaded copies of one document would be saved in turn, and the outcome depends on Mongoose's save semantics. `AddRemoveFriends` requires `id != friendId`.
- ObjectId-versus-string comparison in `includes` (controllers/users.js:68, 117). Ids are one value type, so the two always compare as equal strings.
- Database id generation. The id of a new post is an input, required not already stored.
- Undefined request fields. A missing `description` or `commentText`, and a user's unset `location` or `occupation`, are plain strings here: there is no separate "undefined".
- The `{ stats: ... }` wrapper of the `countUserPosts` reply. `CountUserPosts` gives the three totals; the reply is always 200.
- GetUser: the `User` record keeps only the fields the two controllers read (names, `picturePath`, `location`, `occupation`, `friends`). It has no email, password hash, `viewedProfile`, `impressions` or timestamps. The real `getUser` reply (controllers/users.js:13-16) sends the whole stored document, and it does not drop the password hash the way the auth middleware's lookup does (middlewares/middleWare.js:13). The model does not show that leak.
- Database ordering. The model fixes the order of `find()` as insertion order, and has `save()` replace a stored document where it stands. MongoDB promises neither, so the feed order and the `getNotFriends` order are ordering choices of the model.
- A token whose user no longer exists. The auth middleware then sets `req.user` to `null` (middlewares/middleWare.js:13), and every handler that reads `req.user._id` (controllers/users.js:9, controllers/posts.js:10, 59, 88) throws once it reaches that read. That becomes a 500 or 400 response, which is not modelled. `addComment` reaches its read only after the 404 check for the post (controllers/posts.js:84-85), so for an unknown post it still replies 404. The caller's id is a plain parameter here, so `CreatePost`'s 404 for an unknown author stands for the case where the user is deleted between the token check and the lookup.
- Registration, login and password reset (controllers/auth.js), the bearer-token gate (middlewares/middleWare.js) and the route, upload and server wiring. These are not part of this model. Users enter the store through the `Handlers.Store` constructor.
