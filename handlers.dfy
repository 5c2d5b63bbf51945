/**
  The handlers of controllers/users.js and controllers/posts.js that load
  records, edit them in memory and save them back, over one in-memory
  database holding the users and posts collections.
 */
module Handlers {
  import opened Documents
  import opened Http
  import opened FriendGraph
  import opened PostStore

  class Store {
    var users: Table<User>
    var posts: Table<Post>

    /** Both collections are well formed, and every like map holds only `true`. */
    ghost predicate Valid()
      reads this
    {
      users.Valid() && posts.Valid() &&
      forall k :: k in posts.rows ==> OnlyTrue(posts.rows[k].likes)
    }

    /** A database already holding the given collections. */
    constructor (initialUsers: Table<User>, initialPosts: Table<Post>)
      requires initialUsers.Valid() && initialPosts.Valid()
      requires forall k :: k in initialPosts.rows ==> OnlyTrue(initialPosts.rows[k].likes)
      ensures Valid() && users == initialUsers && posts == initialPosts
    {
      users := initialUsers;
      posts := initialPosts;
    }

    /**
      `addRemoveFriends(id, friendId)`: 404 and no change unless both users
      exist; otherwise both friend lists are toggled, both records saved,
      and the caller's updated list is sent back resolved.
     */
    method AddRemoveFriends(id: Id, friendId: Id) returns (r: Response<seq<FriendSummary>>)
      requires Valid() && id != friendId
      modifies this`users
      ensures Valid()
      ensures !(id in old(users.rows) && friendId in old(users.rows)) ==>
                users == old(users) && r == Err(NOT_FOUND, "User or friend not found")
      ensures id in old(users.rows) && friendId in old(users.rows) ==>
                users.order == old(users.order) &&
                users.rows == Toggled(old(users.rows), id, friendId) &&
                r == Ok(OK, Resolve(users.rows[id].friends, users.rows))
      ensures Symmetric(old(users.rows)) ==> Symmetric(users.rows)
    {
      var user := users.Find(id);
      var friend := users.Find(friendId);
      if user.None? || friend.None? {
        return Err(NOT_FOUND, "User or friend not found");
      }
      ghost var before := users.rows;
      var u, f := user.value, friend.value;
      if friendId in u.friends {
        u := u.(friends := Without(u.friends, friendId));
        f := f.(friends := Without(f.friends, id));
      } else {
        u := u.(friends := u.friends + [friendId]);
        f := f.(friends := f.friends + [id]);
      }
      users := users.Save(id, u);
      users := users.Save(friendId, f);
      assert users.rows == Toggled(before, id, friendId);
      if Symmetric(before) {
        ToggleKeepsSymmetry(before, id, friendId);
      }
      r := Ok(OK, Resolve(u.friends, users.rows));
    }

    /**
      `CreatePost`: 404 and no change for an unknown author; otherwise
      exactly one post is added under the fresh id `newId`, carrying the
      author's snapshot, no likes and no comments.
     */
    method CreatePost(authId: Id, description: string, file: Option<string>, newId: Id)
      returns (r: Response<Doc<Post>>)
      requires Valid() && newId !in posts.rows
      modifies this`posts
      ensures Valid()
      ensures authId !in users.rows ==> posts == old(posts) && r == Err(NOT_FOUND, "User not found")
      ensures authId in users.rows ==> newId in posts.rows
      ensures authId in users.rows && newId in posts.rows ==>
                var p := posts.rows[newId];
                var author := users.rows[authId];
                posts.rows == old(posts.rows)[newId := p] &&
                posts.order == old(posts.order) + [newId] &&
                p.userId == authId && p.firstName == author.firstName &&
                p.lastName == author.lastName && p.location == author.location &&
                p.description == description &&
                p.picturePath == (if file.Some? then file.value else "") &&
                p.userPicturePath == None && p.likes == map[] && p.comments == [] &&
                r == Ok(CREATED, Doc(newId, p))
    {
      var user := users.Find(authId);
      if user.None? {
        return Err(NOT_FOUND, "User not found");
      }
      var p := NewPost(authId, user.value, description, file);
      posts := posts.Save(newId, p);
      r := Ok(CREATED, Doc(newId, p));
    }

    /**
      `likePosts`: 404 and no change for an unknown post; otherwise the
      caller's like entry is toggled and nothing else changes.
     */
    method LikePosts(id: Id, authId: Id) returns (r: Response<Doc<Post>>)
      requires Valid()
      modifies this`posts
      ensures Valid()
      ensures id !in old(posts.rows) ==> posts == old(posts) && r == Err(NOT_FOUND, "Post not found")
      ensures id in old(posts.rows) ==>
                var was := old(posts.rows[id]);
                posts.order == old(posts.order) &&
                posts.rows == old(posts.rows)[id := was.(likes := ToggleLike(was.likes, authId))] &&
                r == Ok(OK, Doc(id, posts.rows[id]))
    {
      var post := posts.Find(id);
      if post.None? {
        return Err(NOT_FOUND, "Post not found");
      }
      var p := post.value;
      ToggleLikeCount(p.likes, authId);
      p := p.(likes := ToggleLike(p.likes, authId));
      posts := posts.Save(id, p);
      r := Ok(OK, Doc(id, p));
    }

    /**
      `addComment`: 404 and no change for an unknown post; otherwise one
      comment by the caller, with the given text and time, is appended.
     */
    method AddComment(postId: Id, authId: Id, commentText: string, now: Timestamp)
      returns (r: Response<Doc<Post>>)
      requires Valid()
      modifies this`posts
      ensures Valid()
      ensures postId !in old(posts.rows) ==> posts == old(posts) && r == Err(NOT_FOUND, "Post not found")
      ensures postId in old(posts.rows) ==>
                var was := old(posts.rows[postId]);
                posts.order == old(posts.order) &&
                posts.rows == old(posts.rows)[postId := was.(comments := was.comments + [Comment(authId, commentText, now)])] &&
                r == Ok(OK, Doc(postId, posts.rows[postId]))
    {
      var post := posts.Find(postId);
      if post.None? {
        return Err(NOT_FOUND, "Post not found");
      }
      var p := post.value;
      p := p.(comments := p.comments + [Comment(authId, commentText, now)]);
      posts := posts.Save(postId, p);
      r := Ok(OK, Doc(postId, p));
    }
  }

  /**
    Two friend toggles on a pair that did not list each other leave the
    users collection as it was.
   */
  method ToggleFriendTwice(s: Store, id: Id, friendId: Id)
    requires s.Valid() && id != friendId && id in s.users.rows && friendId in s.users.rows
    requires friendId !in s.users.rows[id].friends && id !in s.users.rows[friendId].friends
    modifies s
    ensures s.Valid() && s.users == old(s.users) && s.posts == old(s.posts)
  {
    ghost var before := s.users;
    var first := s.AddRemoveFriends(id, friendId);
    var second := s.AddRemoveFriends(id, friendId);
    ToggleTwiceRestores(before.rows, id, friendId);
  }

  /** Two likes by the same user on the same post leave the posts collection as it was. */
  method LikeTwice(s: Store, id: Id, authId: Id)
    requires s.Valid()
    modifies s
    ensures s.Valid() && s.posts == old(s.posts) && s.users == old(s.users)
  {
    ghost var before := s.posts;
    var first := s.LikePosts(id, authId);
    var second := s.LikePosts(id, authId);
    if id in before.rows {
      ToggleLikeTwice(before.rows[id].likes, authId);
      assert s.posts.rows == before.rows;
    }
  }
}
