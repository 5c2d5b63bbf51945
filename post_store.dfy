/**
  The post store of controllers/posts.js: the author snapshot taken at
  creation, the feed and per-author queries, the like toggle, comment
  append and the per-author statistics.
 */
module PostStore {
  import opened Documents
  import opened Http
  import opened FriendGraph

  /** The value of `new Date()` when a comment is made, supplied by the caller. */
  type Timestamp = nat

  datatype Comment = Comment(userId: Id, text: string, createdAt: Timestamp)

  /**
    A post. `likes` is the stored map from user id to flag; `userPicturePath`
    is the author-picture snapshot, which `CreatePost` reads from a field
    the user record does not have.
   */
  datatype Post = Post(
    userId: Id,
    firstName: string,
    lastName: string,
    location: string,
    description: string,
    picturePath: string,
    userPicturePath: Option<string>,
    likes: map<Id, bool>,
    comments: seq<Comment>)

  /** The record `CreatePost` stores for `author`; `file` is the uploaded file's name, if any. */
  function NewPost(authorId: Id, author: User, description: string, file: Option<string>): (p: Post)
    ensures p.userId == authorId
    ensures OnlyTrue(p.likes) && |p.likes| == 0 && |p.comments| == 0
  {
    Post(
      userId := authorId,
      firstName := author.firstName,
      lastName := author.lastName,
      location := author.location,
      description := description,
      picturePath := if file.Some? then file.value else "",
      userPicturePath := None,
      likes := map[],
      comments := [])
  }

  // ---------------------------------------------------------------------
  // getFeedPosts and getUserPosts

  /** `getFeedPosts`: every stored post, each once, in storage order. */
  function GetFeedPosts(posts: Table<Post>): (r: Response<seq<Doc<Post>>>)
    requires posts.Valid()
    ensures r.Ok? && r.status == OK
    ensures IdsOf(r.body) == posts.order
    ensures forall d :: d in r.body ==> d.id in posts.rows && d.data == posts.rows[d.id]
  {
    Ok(OK, posts.All())
  }

  /** `find({ userId })` over `docs`. */
  function UserPosts(docs: seq<Doc<Post>>, userId: Id): (r: seq<Doc<Post>>)
    ensures |r| <= |docs|
  {
    if docs == [] then []
    else if docs[0].data.userId == userId then [docs[0]] + UserPosts(docs[1..], userId)
    else UserPosts(docs[1..], userId)
  }

  /** The filter keeps exactly the posts by `userId`, as often as they occur, in their order. */
  lemma {:induction false} UserPostsExactly(docs: seq<Doc<Post>>, userId: Id)
    ensures forall d :: multiset(UserPosts(docs, userId))[d] ==
                        if d.data.userId == userId then multiset(docs)[d] else 0
    ensures IsSubsequence(UserPosts(docs, userId), docs)
  {
    if docs != [] {
      var rest := UserPosts(docs[1..], userId);
      UserPostsExactly(docs[1..], userId);
      assert docs == [docs[0]] + docs[1..];
      if docs[0].data.userId == userId {
        SubsequenceKeepHead(rest, docs);
      } else {
        assert rest != [] ==> rest[0] in multiset(rest);
        SubsequenceSkipHead(rest, docs);
      }
    }
  }

  /** Filtering by author distributes over concatenation. */
  lemma {:induction false} UserPostsConcat(a: seq<Doc<Post>>, b: seq<Doc<Post>>, userId: Id)
    ensures UserPosts(a + b, userId) == UserPosts(a, userId) + UserPosts(b, userId)
  {
    if a == [] {
      assert a + b == b;
    } else {
      var ab := a + b;
      assert ab[0] == a[0] && ab[1..] == a[1..] + b;
      UserPostsConcat(a[1..], b, userId);
      if a[0].data.userId == userId {
        calc {
          UserPosts(ab, userId);
          [a[0]] + UserPosts(a[1..] + b, userId);
          [a[0]] + (UserPosts(a[1..], userId) + UserPosts(b, userId));
          ([a[0]] + UserPosts(a[1..], userId)) + UserPosts(b, userId);
        }
      } else {
        assert UserPosts(ab, userId) == UserPosts(a[1..] + b, userId);
        assert UserPosts(a, userId) == UserPosts(a[1..], userId);
      }
    }
  }

  /** `getUserPosts`: exactly the stored posts whose author is `userId`, in storage order. */
  function GetUserPosts(posts: Table<Post>, userId: Id): (r: Response<seq<Doc<Post>>>)
    requires posts.Valid()
    ensures r.Ok? && r.status == OK
    ensures forall d :: d in r.body <==> d in posts.All() && d.data.userId == userId
    ensures IsSubsequence(r.body, posts.All())
  {
    var r := UserPosts(posts.All(), userId);
    UserPostsExactly(posts.All(), userId);
    assert forall d :: d in r <==> multiset(r)[d] > 0;
    Ok(OK, r)
  }

  // ---------------------------------------------------------------------
  // likePosts

  /** `likes.get(userId)` is truthy. */
  predicate Liked(likes: map<Id, bool>, userId: Id)
  {
    userId in likes && likes[userId]
  }

  /** The only value ever stored in a like map is `true`. */
  ghost predicate OnlyTrue(likes: map<Id, bool>)
  {
    forall u :: u in likes ==> likes[u]
  }

  /** `likePosts`: a truthy entry is deleted, otherwise the entry is set to `true`. */
  function ToggleLike(likes: map<Id, bool>, userId: Id): (r: map<Id, bool>)
    ensures Liked(likes, userId) ==> userId !in r
    ensures !Liked(likes, userId) ==> userId in r && r[userId]
    ensures forall u :: u != userId ==> (u in r <==> u in likes)
    ensures forall u :: u != userId && u in r ==> r[u] == likes[u]
  {
    if Liked(likes, userId) then likes - {userId} else likes[userId := true]
  }

  /** A toggle keeps the map `true`-only and moves its size by exactly one. */
  lemma ToggleLikeCount(likes: map<Id, bool>, userId: Id)
    requires OnlyTrue(likes)
    ensures OnlyTrue(ToggleLike(likes, userId))
    ensures |ToggleLike(likes, userId)| == if userId in likes then |likes| - 1 else |likes| + 1
  {
  }

  /** Two toggles by the same user restore the like map. */
  lemma ToggleLikeTwice(likes: map<Id, bool>, userId: Id)
    requires OnlyTrue(likes)
    ensures ToggleLike(ToggleLike(likes, userId), userId) == likes
  {
  }

  // ---------------------------------------------------------------------
  // countUserPosts

  datatype Stats = Stats(totalPosts: nat, totalLikes: nat, totalComments: nat)

  /** `reduce((sum, x) => sum + f(x), acc)`: a left fold. */
  function Reduce<T>(s: seq<T>, f: T -> nat, acc: nat): (r: nat)
    ensures acc <= r
  {
    if s == [] then acc else Reduce(s[1..], f, acc + f(s[0]))
  }

  /** The sum of `f` over `s`, the reference the fold is checked against. */
  function Total<T>(s: seq<T>, f: T -> nat): nat
  {
    if s == [] then 0 else f(s[0]) + Total(s[1..], f)
  }

  lemma {:induction false} ReduceIsTotal<T>(s: seq<T>, f: T -> nat, acc: nat)
    ensures Reduce(s, f, acc) == acc + Total(s, f)
  {
    if s != [] {
      ReduceIsTotal(s[1..], f, acc + f(s[0]));
    }
  }

  lemma {:induction false} TotalConcat<T>(a: seq<T>, b: seq<T>, f: T -> nat)
    ensures Total(a + b, f) == Total(a, f) + Total(b, f)
  {
    if a == [] {
      assert a + b == b;
    } else {
      assert (a + b)[0] == a[0] && (a + b)[1..] == a[1..] + b;
      TotalConcat(a[1..], b, f);
    }
  }

  function LikeCount(d: Doc<Post>): nat
  {
    |d.data.likes|
  }

  function CommentCount(d: Doc<Post>): nat
  {
    |d.data.comments|
  }

  /**
    `countUserPosts`: over the posts by `userId`, their number, the sum of
    their like-map sizes and the sum of their comment counts.
   */
  function CountUserPosts(posts: Table<Post>, userId: Id): (r: Stats)
    requires posts.Valid()
    ensures r.totalPosts == |UserPosts(posts.All(), userId)|
    ensures r.totalLikes == Total(UserPosts(posts.All(), userId), LikeCount)
    ensures r.totalComments == Total(UserPosts(posts.All(), userId), CommentCount)
  {
    var mine := UserPosts(posts.All(), userId);
    ReduceIsTotal(mine, LikeCount, 0);
    ReduceIsTotal(mine, CommentCount, 0);
    Stats(|mine|, Reduce(mine, LikeCount, 0), Reduce(mine, CommentCount, 0))
  }

  /** The ids of the posts in `docs` written by `userId`. */
  ghost function IdsBy(docs: seq<Doc<Post>>, userId: Id): set<Id>
  {
    set d | d in docs && d.data.userId == userId :: d.id
  }

  /** Splitting the first post off `docs` splits its id off `IdsBy`. */
  lemma IdsByCons(docs: seq<Doc<Post>>, userId: Id)
    requires docs != []
    ensures IdsBy(docs, userId) ==
            IdsBy(docs[1..], userId) + (if docs[0].data.userId == userId then {docs[0].id} else {})
  {
  }

  /** With distinct ids, the first post's id does not occur again. */
  lemma HeadIdNotInTail(docs: seq<Doc<Post>>, userId: Id)
    requires docs != [] && Distinct(IdsOf(docs))
    ensures docs[0].id !in IdsBy(docs[1..], userId)
  {
  }

  /** The number of posts by `userId` in `docs` is the number of their (distinct) ids. */
  lemma {:induction false} CountMatchingPosts(docs: seq<Doc<Post>>, userId: Id)
    requires Distinct(IdsOf(docs))
    ensures |UserPosts(docs, userId)| == |IdsBy(docs, userId)|
  {
    if docs != [] {
      var tail := docs[1..];
      assert IdsOf(tail) == IdsOf(docs)[1..];
      CountMatchingPosts(tail, userId);
      IdsByCons(docs, userId);
      HeadIdNotInTail(docs, userId);
    }
  }

  /** The number of posts by `userId` equals the number of stored posts with that author. */
  lemma TotalPostsIsStoredCount(posts: Table<Post>, userId: Id)
    requires posts.Valid()
    ensures CountUserPosts(posts, userId).totalPosts ==
            |set k | k in posts.rows && posts.rows[k].userId == userId|
  {
    var all := posts.All();
    CountMatchingPosts(all, userId);
    var byDoc := IdsBy(all, userId);
    var byKey := set k | k in posts.rows && posts.rows[k].userId == userId;
    assert byDoc == byKey by {
      forall k | k in byKey
        ensures k in byDoc
      {
        var i :| 0 <= i < |posts.order| && posts.order[i] == k;
        assert all[i] == Doc(k, posts.rows[k]);
      }
    }
  }

  /** Replacing one post by a post of the same author changes only that author's sums, by the difference. */
  lemma StatsAfterUpdate(posts: Table<Post>, id: Id, v: Post, userId: Id)
    requires posts.Valid() && id in posts.rows && v.userId == posts.rows[id].userId
    ensures var before, after := CountUserPosts(posts, userId), CountUserPosts(posts.Save(id, v), userId);
            var was := posts.rows[id];
            if was.userId == userId then
              after.totalPosts == before.totalPosts &&
              after.totalLikes + |was.likes| == before.totalLikes + |v.likes| &&
              after.totalComments + |was.comments| == before.totalComments + |v.comments|
            else after == before
  {
    var i := posts.AllAfterUpdate(id, v);
    var all := posts.All();
    var a, b := all[..i], all[i + 1..];
    var d, d' := Doc(id, posts.rows[id]), Doc(id, v);
    assert all == a + [d] + b;
    assert posts.Save(id, v).All() == a + [d'] + b;
    UserPostsConcat(a + [d], b, userId);
    UserPostsConcat(a, [d], userId);
    UserPostsConcat(a + [d'], b, userId);
    UserPostsConcat(a, [d'], userId);
    var ua, ub := UserPosts(a, userId), UserPosts(b, userId);
    var ud, ud' := UserPosts([d], userId), UserPosts([d'], userId);
    assert [d][1..] == [] && [d'][1..] == [];
    assert ud == if d.data.userId == userId then [d] else [];
    assert ud' == if d'.data.userId == userId then [d'] else [];
    TotalConcat(ua + ud, ub, LikeCount);
    TotalConcat(ua, ud, LikeCount);
    TotalConcat(ua + ud', ub, LikeCount);
    TotalConcat(ua, ud', LikeCount);
    TotalConcat(ua + ud, ub, CommentCount);
    TotalConcat(ua, ud, CommentCount);
    TotalConcat(ua + ud', ub, CommentCount);
    TotalConcat(ua, ud', CommentCount);
  }

  /** A like toggle moves the author's like total by exactly one and changes nothing else. */
  lemma LikeMovesStatsByOne(posts: Table<Post>, id: Id, liker: Id, userId: Id)
    requires posts.Valid() && id in posts.rows && OnlyTrue(posts.rows[id].likes)
    ensures var was := posts.rows[id];
            var before := CountUserPosts(posts, userId);
            var after := CountUserPosts(posts.Save(id, was.(likes := ToggleLike(was.likes, liker))), userId);
            after.totalPosts == before.totalPosts &&
            after.totalComments == before.totalComments &&
            after.totalLikes == if was.userId != userId then before.totalLikes
                                else if liker in was.likes then before.totalLikes - 1
                                else before.totalLikes + 1
  {
    var was := posts.rows[id];
    ToggleLikeCount(was.likes, liker);
    StatsAfterUpdate(posts, id, was.(likes := ToggleLike(was.likes, liker)), userId);
  }

  /** A comment adds exactly one to its post's author's comment total and changes nothing else. */
  lemma CommentAddsOne(posts: Table<Post>, id: Id, c: Comment, userId: Id)
    requires posts.Valid() && id in posts.rows
    ensures var was := posts.rows[id];
            var before := CountUserPosts(posts, userId);
            var after := CountUserPosts(posts.Save(id, was.(comments := was.comments + [c])), userId);
            after.totalPosts == before.totalPosts &&
            after.totalLikes == before.totalLikes &&
            after.totalComments == if was.userId == userId then before.totalComments + 1 else before.totalComments
  {
    var was := posts.rows[id];
    StatsAfterUpdate(posts, id, was.(comments := was.comments + [c]), userId);
  }

  /** A new post adds one to its author's post total and nothing to any like or comment total. */
  lemma CreateAddsOnePost(posts: Table<Post>, id: Id, p: Post, userId: Id)
    requires posts.Valid() && id !in posts.rows && p.likes == map[] && p.comments == []
    ensures var before, after := CountUserPosts(posts, userId), CountUserPosts(posts.Save(id, p), userId);
            after.totalLikes == before.totalLikes &&
            after.totalComments == before.totalComments &&
            after.totalPosts == if p.userId == userId then before.totalPosts + 1 else before.totalPosts
  {
    var all := posts.All();
    var d := Doc(id, p);
    posts.AllAfterInsert(id, p);
    UserPostsConcat(all, [d], userId);
    var ua, ud := UserPosts(all, userId), UserPosts([d], userId);
    assert [d][1..] == [];
    assert ud == if p.userId == userId then [d] else [];
    assert UserPosts(posts.Save(id, p).All(), userId) == ua + ud;
    TotalConcat(ua, ud, LikeCount);
    TotalConcat(ua, ud, CommentCount);
    assert Total(ud, LikeCount) == 0 && Total(ud, CommentCount) == 0;
  }
}
