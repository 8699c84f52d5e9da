/**
 * The `Like` table: one row per (user, tweet) like. `like_tweet` toggles a
 * row, and every creation or deletion of a row moves the liked tweet's
 * `likes_count` by one.
 */
module Likes {
  import opened Tables
  import opened Models

  /** A like row: `user` likes tweet `tweet`. */
  datatype Like = Like(user: UserId, tweet: TweetId)

  /** `Like.objects.filter(tweet=t)`. */
  function LikesOf(likes: seq<Like>, t: TweetId): seq<Like> {
    Filter(likes, (l: Like) => l.tweet == t)
  }

  /** The number of like rows for tweet `t`: the value `likes_count` must track. */
  function LikeCount(likes: seq<Like>, t: TweetId): (n: nat)
    ensures n <= |likes|
  {
    |LikesOf(likes, t)|
  }

  /** `[like.tweet for like in Like.objects.filter(user=u)]`. */
  function LikedTweetIds(likes: seq<Like>, u: UserId): (r: seq<TweetId>)
    ensures |r| <= |likes|
  {
    var mine := Filter(likes, (l: Like) => l.user == u);
    seq(|mine|, i requires 0 <= i < |mine| => mine[i].tweet)
  }

  /** The tweets liked by `u` are exactly those with a like row from `u`. */
  lemma LikedTweetIdsExactly(likes: seq<Like>, u: UserId, t: TweetId)
    ensures t in LikedTweetIds(likes, u) <==> Like(u, t) in likes
  {
    var mine := Filter(likes, (l: Like) => l.user == u);
    if t in LikedTweetIds(likes, u) {
      var i :| 0 <= i < |mine| && LikedTweetIds(likes, u)[i] == t;
      assert mine[i] in mine;
    }
    if Like(u, t) in likes {
      assert Like(u, t) in mine;
      var i :| 0 <= i < |mine| && mine[i] == Like(u, t);
      assert LikedTweetIds(likes, u)[i] == t;
    }
  }

  /**
   * The like table after `like_tweet` by `u` on `t`: the one matching row is
   * deleted, a missing row is created, and several matches raise and change nothing.
   */
  function Toggled(likes: seq<Like>, u: UserId, t: TweetId): (r: seq<Like>)
    ensures Like(u, t) !in likes ==> multiset(r) == multiset(likes) + multiset{Like(u, t)}
    ensures multiset(likes)[Like(u, t)] == 1 ==> multiset(r) == multiset(likes) - multiset{Like(u, t)}
    ensures multiset(likes)[Like(u, t)] > 1 ==> r == likes
    ensures NoDuplicateRows(likes) ==> NoDuplicateRows(r) && (Like(u, t) in r <==> Like(u, t) !in likes)
  {
    match Get(likes, Like(u, t))
    case DoesNotExist => likes + [Like(u, t)]
    case Found(i) => RemoveAt(likes, i)
    case MultipleObjectsReturned => likes
  }

  /** Toggling the same like twice gives back the same set of like rows. */
  lemma ToggleTwiceRestores(likes: seq<Like>, u: UserId, t: TweetId)
    requires NoDuplicateRows(likes)
    ensures multiset(Toggled(Toggled(likes, u, t), u, t)) == multiset(likes)
    ensures Like(u, t) in Toggled(Toggled(likes, u, t), u, t) <==> Like(u, t) in likes
  {
  }

  /** Creating a like row adds one to that tweet's count, deleting one takes one away; other tweets keep theirs. */
  lemma {:induction false} ToggleLikeCount(likes: seq<Like>, u: UserId, t: TweetId, s: TweetId)
    requires NoDuplicateRows(likes)
    ensures LikeCount(Toggled(likes, u, t), s) ==
              LikeCount(likes, s) + (if s != t then 0 else if Like(u, t) in likes then -1 else 1)
  {
    var p := (l: Like) => l.tweet == s;
    match Get(likes, Like(u, t))
    case DoesNotExist =>
      FilterAppendCount(likes, Like(u, t), p);
    case Found(i) =>
      FilterRemoveAtCount(likes, i, p);
    case MultipleObjectsReturned =>
  }

  /** A tweet's like count is zero exactly when no like row names it. */
  lemma LikeCountZero(likes: seq<Like>, t: TweetId)
    ensures LikeCount(likes, t) == 0 <==> forall l | l in likes :: l.tweet != t
  {
    var rows := LikesOf(likes, t);
    if LikeCount(likes, t) != 0 {
      assert rows[0] in rows;
    }
  }
}
