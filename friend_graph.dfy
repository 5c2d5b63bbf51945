/**
  The friend graph of controllers/users.js: the profile read, friend-list
  resolution, the symmetric add/remove toggle and the "not friends" query,
  over the users collection.
 */
module FriendGraph {
  import opened Documents
  import opened Http

  /** A user record (models/user.js), without the credential fields. */
  datatype User = User(
    firstName: string,
    lastName: string,
    picturePath: string,
    location: string,
    occupation: string,
    friends: seq<Id>)

  /** The fields every friend list sends besides `_id`. */
  datatype Profile = Profile(
    firstName: string,
    lastName: string,
    picturePath: string,
    location: string,
    occupation: string)

  /** The projection every friend list is sent as: the `_id` and the profile fields. */
  type FriendSummary = Doc<Profile>

  function Summary(id: Id, u: User): FriendSummary
  {
    Doc(id, Profile(u.firstName, u.lastName, u.picturePath, u.location, u.occupation))
  }

  // ---------------------------------------------------------------------
  // getUser

  /**
    `getUser`: only the authenticated user may read their own record; the
    store is not consulted otherwise.
   */
  function GetUser(authId: Id, id: Id, users: Table<User>): (r: Response<Doc<User>>)
    ensures authId != id ==> r == Err(FORBIDDEN, "Access denied")
    ensures r.Ok? <==> authId == id && id in users.rows
    ensures authId == id && id !in users.rows ==> r == Err(NOT_FOUND, "User not found")
    ensures r.Ok? ==> r.status == OK && r.body == Doc(id, users.rows[id])
  {
    if authId != id then Err(FORBIDDEN, "Access denied")
    else match users.Find(id)
      case None => Err(NOT_FOUND, "User not found")
      case Some(u) => Ok(OK, Doc(id, u))
  }

  // ---------------------------------------------------------------------
  // Friend-list resolution (getUserFriends and the reply of addRemoveFriends)

  /**
    Each id looked up in turn; ids that no longer resolve are dropped, the
    rest are projected, in friend-list order.
   */
  function Resolve(ids: seq<Id>, users: map<Id, User>): (r: seq<FriendSummary>)
    ensures |r| <= |ids|
  {
    if ids == [] then []
    else if ids[0] in users then [Summary(ids[0], users[ids[0]])] + Resolve(ids[1..], users)
    else Resolve(ids[1..], users)
  }

  /**
    The resolved list holds exactly the friend ids that resolve, in
    friend-list order, each projected from its stored record.
   */
  lemma {:induction false} ResolveExactly(ids: seq<Id>, users: map<Id, User>)
    ensures forall x :: x in IdsOf(Resolve(ids, users)) <==> x in ids && x in users
    ensures IsSubsequence(IdsOf(Resolve(ids, users)), ids)
    ensures forall s :: s in Resolve(ids, users) ==> s.id in users && s == Summary(s.id, users[s.id])
    ensures forall x :: multiset(IdsOf(Resolve(ids, users)))[x] == if x in users then multiset(ids)[x] else 0
  {
    if ids != [] {
      var r := Resolve(ids, users);
      var rest := Resolve(ids[1..], users);
      ResolveExactly(ids[1..], users);
      assert ids == [ids[0]] + ids[1..];
      if ids[0] in users {
        var s := Summary(ids[0], users[ids[0]]);
        assert r == [s] + rest;
        IdsOfCons(s, rest);
        SubsequenceKeepHead(IdsOf(rest), ids);
      } else {
        SubsequenceSkipHead(IdsOf(rest), ids);
      }
    }
  }

  /** Resolution works id by id: it distributes over concatenation. */
  lemma {:induction false} ResolveConcat(a: seq<Id>, b: seq<Id>, users: map<Id, User>)
    ensures Resolve(a + b, users) == Resolve(a, users) + Resolve(b, users)
  {
    if a == [] {
      assert a + b == b;
    } else {
      var ab := a + b;
      assert ab[0] == a[0] && ab[1..] == a[1..] + b;
      ResolveConcat(a[1..], b, users);
      if a[0] in users {
        var s := Summary(a[0], users[a[0]]);
        calc {
          Resolve(ab, users);
          [s] + Resolve(a[1..] + b, users);
          [s] + (Resolve(a[1..], users) + Resolve(b, users));
          ([s] + Resolve(a[1..], users)) + Resolve(b, users);
        }
      }
    }
  }

  /** `getUserFriends`: 404 for an unknown user, else the resolved friend list. */
  function GetUserFriends(id: Id, users: Table<User>): (r: Response<seq<FriendSummary>>)
    ensures r.Ok? <==> id in users.rows
    ensures id !in users.rows ==> r == Err(NOT_FOUND, "User not found")
    ensures r.Ok? ==> r.status == OK
    ensures r.Ok? ==> forall x :: x in IdsOf(r.body) <==> x in users.rows[id].friends && x in users.rows
    ensures r.Ok? ==> IsSubsequence(IdsOf(r.body), users.rows[id].friends)
    ensures r.Ok? ==> forall s :: s in r.body ==> s == Summary(s.id, users.rows[s.id])
    ensures r.Ok? ==> forall x :: multiset(IdsOf(r.body))[x] == if x in users.rows then multiset(users.rows[id].friends)[x] else 0
  {
    match users.Find(id)
    case None => Err(NOT_FOUND, "User not found")
    case Some(u) =>
      ResolveExactly(u.friends, users.rows);
      Ok(OK, Resolve(u.friends, users.rows))
  }

  // ---------------------------------------------------------------------
  // getNotFriends

  /**
    The users of `order` other than `id` whose id is not in `friends`,
    projected, in storage order.
   */
  function NotFriends(order: seq<Id>, users: map<Id, User>, id: Id, friends: seq<Id>): (r: seq<FriendSummary>)
    requires forall k :: k in order ==> k in users
    ensures |r| <= |order|
  {
    if order == [] then []
    else if order[0] != id && order[0] !in friends then
      [Summary(order[0], users[order[0]])] + NotFriends(order[1..], users, id, friends)
    else NotFriends(order[1..], users, id, friends)
  }

  /**
    The scan keeps exactly the other users outside the friend list, in scan
    order, without repeats if the scan has none, each projected from its
    stored record.
   */
  lemma {:induction false} NotFriendsExactly(order: seq<Id>, users: map<Id, User>, id: Id, friends: seq<Id>)
    requires forall k :: k in order ==> k in users
    ensures forall x :: x in IdsOf(NotFriends(order, users, id, friends)) <==> x in order && x != id && x !in friends
    ensures IsSubsequence(IdsOf(NotFriends(order, users, id, friends)), order)
    ensures Distinct(order) ==> Distinct(IdsOf(NotFriends(order, users, id, friends)))
    ensures forall s :: s in NotFriends(order, users, id, friends) ==> s.id in users && s == Summary(s.id, users[s.id])
  {
    if order != [] {
      var r := NotFriends(order, users, id, friends);
      var rest := NotFriends(order[1..], users, id, friends);
      NotFriendsExactly(order[1..], users, id, friends);
      assert order == [order[0]] + order[1..];
      if order[0] != id && order[0] !in friends {
        var s := Summary(order[0], users[order[0]]);
        assert r == [s] + rest;
        IdsOfCons(s, rest);
        SubsequenceKeepHead(IdsOf(rest), order);
        assert Distinct(order) ==> order[0] !in order[1..];
      } else {
        assert r == rest;
        assert IdsOf(rest) != [] ==> IdsOf(rest)[0] in IdsOf(rest);
        SubsequenceSkipHead(IdsOf(rest), order);
      }
    }
  }

  /**
    `getNotFriends`: 404 for an unknown user, else every other stored user
    not in the friend list, each once, in storage order.
   */
  function GetNotFriends(id: Id, users: Table<User>): (r: Response<seq<FriendSummary>>)
    requires users.Valid()
    ensures r.Ok? <==> id in users.rows
    ensures id !in users.rows ==> r == Err(NOT_FOUND, "User not found")
    ensures r.Ok? ==> r.status == OK
    ensures r.Ok? ==> forall x :: x in IdsOf(r.body) <==> x in users.rows && x != id && x !in users.rows[id].friends
    ensures r.Ok? ==> Distinct(IdsOf(r.body))
    ensures r.Ok? ==> IsSubsequence(IdsOf(r.body), users.order)
    ensures r.Ok? ==> forall s :: s in r.body ==> s == Summary(s.id, users.rows[s.id])
  {
    match users.Find(id)
    case None => Err(NOT_FOUND, "User not found")
    case Some(u) =>
      NotFriendsExactly(users.order, users.rows, id, u.friends);
      Ok(OK, NotFriends(users.order, users.rows, id, u.friends))
  }

  /**
    For a user who does not list themselves, the friends found, the
    non-friends and the user together make up all stored users, without
    overlap.
   */
  lemma FriendsAndNotFriendsPartition(id: Id, users: Table<User>)
    requires users.Valid() && id in users.rows && id !in users.rows[id].friends
    ensures var f := set x | x in IdsOf(GetUserFriends(id, users).body);
            var n := set x | x in IdsOf(GetNotFriends(id, users).body);
            f + n + {id} == users.rows.Keys && f * n == {} && id !in f + n
  {
  }

  // ---------------------------------------------------------------------
  // addRemoveFriends

  /** `now` is `was` with every copy of `x` dropped and everything else kept, in order. */
  ghost predicate RemovedFrom(now: seq<Id>, was: seq<Id>, x: Id)
  {
    x !in now && IsSubsequence(now, was) && forall y :: y != x ==> multiset(now)[y] == multiset(was)[y]
  }

  /** `filter(fid => fid !== x)`. */
  function Without(s: seq<Id>, x: Id): (r: seq<Id>)
    ensures |r| <= |s|
  {
    if s == [] then []
    else if s[0] == x then Without(s[1..], x)
    else [s[0]] + Without(s[1..], x)
  }

  /** The filter removes every copy of `x` and keeps everything else, as often as it occurred, in order. */
  lemma {:induction false} WithoutExactly(s: seq<Id>, x: Id)
    ensures RemovedFrom(Without(s, x), s, x)
  {
    if s != [] {
      var rest := Without(s[1..], x);
      WithoutExactly(s[1..], x);
      assert s == [s[0]] + s[1..];
      if s[0] == x {
        SubsequenceSkipHead(rest, s);
      } else {
        SubsequenceKeepHead(rest, s);
      }
    }
  }

  /** Removing an id that is not there changes nothing. */
  lemma {:induction false} WithoutAbsent(s: seq<Id>, x: Id)
    requires x !in s
    ensures Without(s, x) == s
  {
    if s != [] {
      WithoutAbsent(s[1..], x);
    }
  }

  /** Removing an id distributes over concatenation. */
  lemma {:induction false} WithoutConcat(a: seq<Id>, b: seq<Id>, x: Id)
    ensures Without(a + b, x) == Without(a, x) + Without(b, x)
  {
    if a == [] {
      assert a + b == b;
    } else {
      var ab := a + b;
      assert ab[0] == a[0] && ab[1..] == a[1..] + b;
      WithoutConcat(a[1..], b, x);
      if a[0] != x {
        calc {
          Without(ab, x);
          [a[0]] + Without(a[1..] + b, x);
          [a[0]] + (Without(a[1..], x) + Without(b, x));
          ([a[0]] + Without(a[1..], x)) + Without(b, x);
        }
      } else {
        assert Without(ab, x) == Without(a[1..] + b, x);
        assert Without(a, x) == Without(a[1..], x);
      }
    }
  }

  /**
    The users collection after `addRemoveFriends(id, friendId)`: if
    `friendId` is in `id`'s list, each drops the other from their list;
    otherwise each is appended to the other's list. Nobody else changes.
   */
  function Toggled(users: map<Id, User>, id: Id, friendId: Id): (r: map<Id, User>)
    requires id in users && friendId in users && id != friendId
    ensures r.Keys == users.Keys
    ensures forall k :: k in users && k != id && k != friendId ==> r[k] == users[k]
    ensures r[id] == users[id].(friends := r[id].friends)
    ensures r[friendId] == users[friendId].(friends := r[friendId].friends)
    ensures friendId in users[id].friends ==>
              RemovedFrom(r[id].friends, users[id].friends, friendId) &&
              RemovedFrom(r[friendId].friends, users[friendId].friends, id)
    ensures friendId !in users[id].friends ==>
              r[id].friends == users[id].friends + [friendId] &&
              r[friendId].friends == users[friendId].friends + [id]
  {
    var u, f := users[id], users[friendId];
    WithoutExactly(u.friends, friendId);
    WithoutExactly(f.friends, id);
    if friendId in u.friends then
      users[id := u.(friends := Without(u.friends, friendId))]
           [friendId := f.(friends := Without(f.friends, id))]
    else
      users[id := u.(friends := u.friends + [friendId])]
           [friendId := f.(friends := f.friends + [id])]
  }

  /** `a` lists `b` exactly when `b` lists `a`. */
  ghost predicate PairSymmetric(users: map<Id, User>, a: Id, b: Id)
    requires a in users && b in users
  {
    b in users[a].friends <==> a in users[b].friends
  }

  /** Every friendship edge between stored users is symmetric. */
  ghost predicate Symmetric(users: map<Id, User>)
  {
    forall a, b :: a in users && b in users ==> PairSymmetric(users, a, b)
  }

  /** A toggle changes whether `k` lists `x` only for the toggled pair itself. */
  lemma ToggleKeepsOtherEntries(users: map<Id, User>, id: Id, friendId: Id, k: Id, x: Id)
    requires id in users && friendId in users && id != friendId && k in users
    requires k == id ==> x != friendId
    requires k == friendId ==> x != id
    ensures x in Toggled(users, id, friendId)[k].friends <==> x in users[k].friends
  {
    var r := Toggled(users, id, friendId);
    if k == id || k == friendId {
      var other := if k == id then friendId else id;
      if friendId in users[id].friends {
        assert multiset(r[k].friends)[x] == multiset(users[k].friends)[x];
      } else {
        assert r[k].friends == users[k].friends + [other];
      }
    }
  }

  /**
    A toggle keeps every symmetric pair symmetric, and makes the toggled
    pair symmetric whatever it was before.
   */
  lemma TogglePairSymmetry(users: map<Id, User>, id: Id, friendId: Id, a: Id, b: Id)
    requires id in users && friendId in users && id != friendId
    requires a in users && b in users
    requires PairSymmetric(users, a, b) || {a, b} == {id, friendId}
    ensures PairSymmetric(Toggled(users, id, friendId), a, b)
  {
    if a == b {
    } else if {a, b} == {id, friendId} {
      assert a == id || a == friendId;
      if a == id {
        assert b == friendId;
      } else {
        assert b == id;
      }
    } else {
      assert !(a == id && b == friendId) && !(a == friendId && b == id);
      ToggleKeepsOtherEntries(users, id, friendId, a, b);
      ToggleKeepsOtherEntries(users, id, friendId, b, a);
    }
  }

  /** A toggle preserves a symmetric friend graph. */
  lemma ToggleKeepsSymmetry(users: map<Id, User>, id: Id, friendId: Id)
    requires id in users && friendId in users && id != friendId
    requires Symmetric(users)
    ensures Symmetric(Toggled(users, id, friendId))
  {
    var r := Toggled(users, id, friendId);
    forall a, b | a in r && b in r
      ensures PairSymmetric(r, a, b)
    {
      TogglePairSymmetry(users, id, friendId, a, b);
    }
  }

  /** From two users who do not list each other, toggling twice restores both lists. */
  lemma ToggleTwiceRestores(users: map<Id, User>, id: Id, friendId: Id)
    requires id in users && friendId in users && id != friendId
    requires friendId !in users[id].friends && id !in users[friendId].friends
    ensures Toggled(Toggled(users, id, friendId), id, friendId) == users
  {
    var once := Toggled(users, id, friendId);
    var uf, ff := users[id].friends, users[friendId].friends;
    WithoutConcat(uf, [friendId], friendId);
    WithoutAbsent(uf, friendId);
    WithoutConcat(ff, [id], id);
    WithoutAbsent(ff, id);
    assert Without(once[id].friends, friendId) == uf;
    assert Without(once[friendId].friends, id) == ff;
  }

  /**
    From a pair that lists each other or neither, two toggles restore who
    lists whom, and nothing but the two friend lists changes. From a pair
    that lists each other, each ends up at the end of the other's list,
    with every copy of it removed from its old place.
   */
  lemma ToggleTwiceRestoresMembership(users: map<Id, User>, id: Id, friendId: Id)
    requires id in users && friendId in users && id != friendId
    requires PairSymmetric(users, id, friendId)
    ensures var twice := Toggled(Toggled(users, id, friendId), id, friendId);
            twice.Keys == users.Keys &&
            (forall k :: k in users ==> twice[k] == users[k].(friends := twice[k].friends)) &&
            forall k, x :: k in users ==> (x in twice[k].friends <==> x in users[k].friends)
    ensures var twice := Toggled(Toggled(users, id, friendId), id, friendId);
            friendId in users[id].friends ==>
              twice[id].friends == Without(users[id].friends, friendId) + [friendId] &&
              twice[friendId].friends == Without(users[friendId].friends, id) + [id]
  {
    var once := Toggled(users, id, friendId);
    var twice := Toggled(once, id, friendId);
    if friendId in users[id].friends {
      forall x
        ensures x in twice[id].friends <==> x in users[id].friends
        ensures x in twice[friendId].friends <==> x in users[friendId].friends
      {
        if x != friendId {
          assert multiset(once[id].friends)[x] == multiset(users[id].friends)[x];
        }
        if x != id {
          assert multiset(once[friendId].friends)[x] == multiset(users[friendId].friends)[x];
        }
      }
    } else {
      ToggleTwiceRestores(users, id, friendId);
    }
  }

  /**
    From a one-sided pair, where only `friendId` lists `id`, two toggles
    drop the edge: the first appends a second copy of `id` to `friendId`'s
    list, and the second removes every copy.
   */
  lemma ToggleTwiceDropsOneSidedEdge(users: map<Id, User>, id: Id, friendId: Id)
    requires id in users && friendId in users && id != friendId
    requires friendId !in users[id].friends && id in users[friendId].friends
    ensures var twice := Toggled(Toggled(users, id, friendId), id, friendId);
            friendId !in twice[id].friends && id !in twice[friendId].friends
  {
  }

  /**
    From a one-sided pair, where only `id` lists `friendId`, two toggles
    make the edge mutual: the first removes `friendId` from `id`'s list and
    nothing from the other, and the second appends on both sides.
   */
  lemma ToggleTwiceMakesOneSidedEdgeMutual(users: map<Id, User>, id: Id, friendId: Id)
    requires id in users && friendId in users && id != friendId
    requires friendId in users[id].friends && id !in users[friendId].friends
    ensures var twice := Toggled(Toggled(users, id, friendId), id, friendId);
            friendId in twice[id].friends && id in twice[friendId].friends
  {
  }

  /** Two toggles from a mutual pair do not restore list order: `["b", "c"]` becomes `["c", "b"]`. */
  lemma ToggleTwiceReorders()
    ensures var a := User("", "", "", "", "", ["b", "c"]);
            var b := User("", "", "", "", "", ["a"]);
            var users := map["a" := a, "b" := b];
            Toggled(Toggled(users, "a", "b"), "a", "b")["a"].friends == ["c", "b"]
  {
    var a := User("", "", "", "", "", ["b", "c"]);
    var b := User("", "", "", "", "", ["a"]);
    var users := map["a" := a, "b" := b];
    assert ["b", "c"][1..] == ["c"] && ["c"][1..] == [];
    assert Without(["b", "c"], "b") == ["c"];
    ToggleTwiceRestoresMembership(users, "a", "b");
  }
}
