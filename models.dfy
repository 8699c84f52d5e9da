/**
 * The data model of the timeline application and the follow graph kept by
 * the user model: the `Relationship` table of directed (follower, following)
 * edges, the queries the user model answers from it, and `follow` and
 * `unfollow`, which insert or delete one edge after a lookup.
 */
module Models {
  import opened Tables

  type UserId = nat
  type TweetId = nat

  /** A registered user: primary key and username. */
  datatype User = User(id: UserId, username: string)

  /** Longest content a tweet may hold; blank content is allowed. */
  const MaxContentLength: nat := 140

  predicate ValidContent(content: string) {
    |content| <= MaxContentLength
  }

  /**
   * A tweet row. `user` is the nullable owner, `created` the creation
   * timestamp (an abstract integer), `likes` the many-to-many `likes` field
   * and `likesCount` the counter kept by the hooks on Like rows.
   */
  datatype Tweet = Tweet(
    id: TweetId,
    user: Option<UserId>,
    content: string,
    created: int,
    likes: set<UserId>,
    likesCount: int)

  /** `count_likes`: how many users the tweet's `likes` field holds. */
  function CountLikes(t: Tweet): (n: nat)
    ensures n == 0 <==> t.likes == {}
    ensures forall u | u in t.likes :: n == |t.likes - {u}| + 1
  {
    |t.likes|
  }

  /** The user with username `name`, if there is one (the first in storage order). */
  function FindUser(users: seq<User>, name: string): (r: Option<User>)
    ensures r.Some? ==> r.value in users && r.value.username == name
    ensures r.None? <==> forall u | u in users :: u.username != name
  {
    if users == [] then None
    else if users[0].username == name then Some(users[0])
    else FindUser(users[1..], name)
  }

  /** Position of the tweet with primary key `id`, if it is stored. */
  function FindTweet(tweets: seq<Tweet>, id: TweetId): (r: Option<nat>)
    ensures r.Some? ==> r.value < |tweets| && tweets[r.value].id == id
    ensures r.None? <==> forall t | t in tweets :: t.id != id
  {
    if tweets == [] then None
    else if tweets[0].id == id then Some(0)
    else
      match FindTweet(tweets[1..], id)
      case None => None
      case Some(i) => Some(i + 1)
  }

  // ---------------------------------------------------------------------
  // The Relationship table
  // ---------------------------------------------------------------------

  /** A directed edge: `follower` follows `following`. */
  datatype Relationship = Relationship(follower: UserId, following: UserId)

  /** `Relationship.objects.filter(follower=u)`. */
  function Outgoing(rows: seq<Relationship>, u: UserId): seq<Relationship> {
    Filter(rows, (e: Relationship) => e.follower == u)
  }

  /** `Relationship.objects.filter(following=u)`. */
  function Incoming(rows: seq<Relationship>, u: UserId): seq<Relationship> {
    Filter(rows, (e: Relationship) => e.following == u)
  }

  /** `is_following`: the edges from `a` to `b` are not none, that is, the edge is stored. */
  function IsFollowing(rows: seq<Relationship>, a: UserId, b: UserId): (r: bool)
    ensures r <==> Relationship(a, b) in rows
  {
    var hits := Filter(rows, (e: Relationship) => e.follower == a && e.following == b);
    assert hits != [] ==> hits[0] in hits && hits[0] == Relationship(a, b);
    hits != []
  }

  /** `count_following`: the number of edges leaving `u`. */
  function CountFollowing(rows: seq<Relationship>, u: UserId): (n: nat)
    ensures n <= |rows|
  {
    |Outgoing(rows, u)|
  }

  /** `count_followers`: the number of edges entering `u`. */
  function CountFollowers(rows: seq<Relationship>, u: UserId): (n: nat)
    ensures n <= |rows|
  {
    |Incoming(rows, u)|
  }

  /** `u` follows nobody exactly when its following count is zero. */
  lemma CountFollowingZero(rows: seq<Relationship>, u: UserId)
    ensures CountFollowing(rows, u) == 0 <==> forall e | e in rows :: e.follower != u
  {
    var out := Outgoing(rows, u);
    if CountFollowing(rows, u) != 0 {
      assert out[0] in out;
    }
  }

  /** Nobody follows `u` exactly when its follower count is zero. */
  lemma CountFollowersZero(rows: seq<Relationship>, u: UserId)
    ensures CountFollowers(rows, u) == 0 <==> forall e | e in rows :: e.following != u
  {
    var inc := Incoming(rows, u);
    if CountFollowers(rows, u) != 0 {
      assert inc[0] in inc;
    }
  }

  /** `following`: the `following` end of every edge leaving `u`. */
  function Following(rows: seq<Relationship>, u: UserId): (r: seq<UserId>)
    ensures |r| == CountFollowing(rows, u)
  {
    var out := Outgoing(rows, u);
    seq(|out|, i requires 0 <= i < |out| => out[i].following)
  }

  /** `following` lists exactly the users `u` follows. */
  lemma FollowingExactly(rows: seq<Relationship>, u: UserId, v: UserId)
    ensures v in Following(rows, u) <==> IsFollowing(rows, u, v)
  {
    var out := Outgoing(rows, u);
    if v in Following(rows, u) {
      var i :| 0 <= i < |out| && Following(rows, u)[i] == v;
      assert out[i] in out;
    }
    if IsFollowing(rows, u, v) {
      assert Relationship(u, v) in out;
      var i :| 0 <= i < |out| && out[i] == Relationship(u, v);
      assert Following(rows, u)[i] == v;
    }
  }

  /**
   * `followers` as written: it takes the `following` end of every edge
   * entering `u`, so each element is `u` itself, once per follower.
   */
  function Followers(rows: seq<Relationship>, u: UserId): (r: seq<UserId>)
    ensures |r| == CountFollowers(rows, u)
    ensures forall i | 0 <= i < |r| :: r[i] == u
  {
    var inc := Incoming(rows, u);
    assert forall i | 0 <= i < |inc| :: inc[i] in inc;
    seq(|inc|, i requires 0 <= i < |inc| => inc[i].following)
  }

  /** With one follower, `followers` names the followed user, not the follower. */
  lemma FollowersNamesTheFollowedUser()
    ensures Followers([Relationship(1, 2)], 2) == [2]
    ensures IsFollowing([Relationship(1, 2)], 1, 2)
    ensures 1 !in Followers([Relationship(1, 2)], 2)
  {
    var rows := [Relationship(1, 2)];
    assert Relationship(1, 2) in Incoming(rows, 2);
    assert |Followers(rows, 2)| == 1;
  }

  /** `followers` as evidently intended: the `follower` end of every edge entering `u`. */
  function FollowerUsers(rows: seq<Relationship>, u: UserId): (r: seq<UserId>)
    ensures |r| == CountFollowers(rows, u)
  {
    var inc := Incoming(rows, u);
    seq(|inc|, i requires 0 <= i < |inc| => inc[i].follower)
  }

  /** The intended `followers` lists exactly the users following `u`. */
  lemma FollowerUsersExactly(rows: seq<Relationship>, u: UserId, v: UserId)
    ensures v in FollowerUsers(rows, u) <==> IsFollowing(rows, v, u)
  {
    var inc := Incoming(rows, u);
    if v in FollowerUsers(rows, u) {
      var i :| 0 <= i < |inc| && FollowerUsers(rows, u)[i] == v;
      assert inc[i] in inc;
    }
    if IsFollowing(rows, v, u) {
      assert Relationship(v, u) in inc;
      var i :| 0 <= i < |inc| && inc[i] == Relationship(v, u);
      assert FollowerUsers(rows, u)[i] == v;
    }
  }

  /**
   * The edge table after `follow(a, b)`: the edge is created only when the
   * lookup finds none; a lookup that finds several raises and changes nothing.
   */
  function Followed(rows: seq<Relationship>, a: UserId, b: UserId): (r: seq<Relationship>)
    ensures IsFollowing(r, a, b)
    ensures IsFollowing(rows, a, b) ==> r == rows
    ensures !IsFollowing(rows, a, b) ==> multiset(r) == multiset(rows) + multiset{Relationship(a, b)}
    ensures forall e | e != Relationship(a, b) :: multiset(r)[e] == multiset(rows)[e]
    ensures NoDuplicateRows(rows) ==> NoDuplicateRows(r)
  {
    match Get(rows, Relationship(a, b))
    case DoesNotExist => rows + [Relationship(a, b)]
    case Found(_) => rows
    case MultipleObjectsReturned => rows
  }

  /**
   * The edge table after `unfollow(a, b)`: the one matching edge is deleted;
   * no match returns early, several matches raise, and both change nothing.
   */
  function Unfollowed(rows: seq<Relationship>, a: UserId, b: UserId): (r: seq<Relationship>)
    ensures !IsFollowing(rows, a, b) ==> r == rows
    ensures multiset(rows)[Relationship(a, b)] > 1 ==> r == rows
    ensures multiset(rows)[Relationship(a, b)] == 1 ==>
              multiset(r) == multiset(rows) - multiset{Relationship(a, b)}
    ensures forall e | e != Relationship(a, b) :: multiset(r)[e] == multiset(rows)[e]
    ensures NoDuplicateRows(rows) ==> NoDuplicateRows(r) && !IsFollowing(r, a, b)
  {
    match Get(rows, Relationship(a, b))
    case DoesNotExist => rows
    case Found(i) => RemoveAt(rows, i)
    case MultipleObjectsReturned => rows
  }

  /** A second `follow` of the same pair changes nothing. */
  lemma FollowIdempotent(rows: seq<Relationship>, a: UserId, b: UserId)
    ensures Followed(Followed(rows, a, b), a, b) == Followed(rows, a, b)
  {
  }

  /** `follow(a, b)` adds one to `a`'s following count and to `b`'s follower count, unless the edge was there. */
  lemma {:induction false} FollowCounts(rows: seq<Relationship>, a: UserId, b: UserId, u: UserId)
    ensures CountFollowing(Followed(rows, a, b), u) ==
              CountFollowing(rows, u) + (if u == a && !IsFollowing(rows, a, b) then 1 else 0)
    ensures CountFollowers(Followed(rows, a, b), u) ==
              CountFollowers(rows, u) + (if u == b && !IsFollowing(rows, a, b) then 1 else 0)
  {
    if !IsFollowing(rows, a, b) {
      assert Followed(rows, a, b) == rows + [Relationship(a, b)];
      FilterAppendCount(rows, Relationship(a, b), (e: Relationship) => e.follower == u);
      FilterAppendCount(rows, Relationship(a, b), (e: Relationship) => e.following == u);
    }
  }

  /** `unfollow(a, b)` takes one from `a`'s following count and from `b`'s follower count when the edge was there. */
  lemma {:induction false} UnfollowCounts(rows: seq<Relationship>, a: UserId, b: UserId, u: UserId)
    requires NoDuplicateRows(rows)
    ensures CountFollowing(Unfollowed(rows, a, b), u) + (if u == a && IsFollowing(rows, a, b) then 1 else 0) ==
              CountFollowing(rows, u)
    ensures CountFollowers(Unfollowed(rows, a, b), u) + (if u == b && IsFollowing(rows, a, b) then 1 else 0) ==
              CountFollowers(rows, u)
  {
    match Get(rows, Relationship(a, b))
    case DoesNotExist =>
    case Found(i) =>
      FilterRemoveAtCount(rows, i, (e: Relationship) => e.follower == u);
      FilterRemoveAtCount(rows, i, (e: Relationship) => e.following == u);
    case MultipleObjectsReturned =>
  }

  /** `unfollow` right after a `follow` that created the edge gives back the original table. */
  lemma {:induction false} UnfollowUndoesFollow(rows: seq<Relationship>, a: UserId, b: UserId)
    requires !IsFollowing(rows, a, b)
    ensures Unfollowed(Followed(rows, a, b), a, b) == rows
  {
    var e := Relationship(a, b);
    var grown := rows + [e];
    assert Followed(rows, a, b) == grown;
    var i := Get(grown, e).index;
    assert grown[..|rows|] == rows;
  }

  /** Outcome of a model method that performs a `get`: it ran to the end or the lookup raised. */
  datatype Outcome = Completed | RaisedMultipleObjectsReturned

  /** The shared `Relationship` table, updated in place by `follow` and `unfollow`. */
  class RelationshipTable {
    var rows: seq<Relationship>

    constructor ()
      ensures rows == []
    {
      rows := [];
    }

    /** `User.follow`: look the edge up, create it when it is missing. */
    method Follow(a: UserId, b: UserId) returns (outcome: Outcome)
      modifies this
      ensures rows == Followed(old(rows), a, b)
      ensures outcome == RaisedMultipleObjectsReturned <==> multiset(old(rows))[Relationship(a, b)] > 1
      ensures NoDuplicateRows(old(rows)) ==> outcome == Completed
    {
      var edge := Relationship(a, b);
      match Get(rows, edge)
      case DoesNotExist =>
        rows := rows + [edge];
        outcome := Completed;
      case Found(_) =>
        outcome := Completed;
      case MultipleObjectsReturned =>
        outcome := RaisedMultipleObjectsReturned;
    }

    /** `User.unfollow`: look the edge up, return when it is missing, delete it otherwise. */
    method Unfollow(a: UserId, b: UserId) returns (outcome: Outcome)
      modifies this
      ensures rows == Unfollowed(old(rows), a, b)
      ensures outcome == RaisedMultipleObjectsReturned <==> multiset(old(rows))[Relationship(a, b)] > 1
      ensures NoDuplicateRows(old(rows)) ==> outcome == Completed
    {
      var edge := Relationship(a, b);
      match Get(rows, edge)
      case DoesNotExist =>
        outcome := Completed;
        return;
      case Found(i) =>
        rows := RemoveAt(rows, i);
        outcome := Completed;
      case MultipleObjectsReturned =>
        outcome := RaisedMultipleObjectsReturned;
    }
  }
}
