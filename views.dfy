/**
 * The request handlers of the timeline application over one database:
 * `home` (post a tweet, or show a feed), `follow`, `unfollow`,
 * `delete_tweet` and `like_tweet`. Each handler returns a response tag in
 * place of an HTTP response; the authenticated user of the request is the
 * `viewer` parameter (None for an anonymous request).
 */
module Views {
  import opened Tables
  import opened Models
  import opened Likes
  import opened Feed

  datatype HttpMethod = GET | POST | OtherMethod

  datatype Response =
    | Page(profile: User, items: seq<FeedItem>, followingProfile: bool, showsForm: bool)
    | Redirect          // redirect to `next` after a completed action
    | RedirectToLogin   // redirect of an anonymous request to the login page
    | Ok                // the empty response of `like_tweet`
    | Forbidden
    | NotFound
    | PermissionDenied
    | MethodNotAllowed
    | ServerError       // an exception the handler does not catch

  /** Python truthiness of the optional `username` URL argument. */
  predicate Truthy(username: Option<string>) {
    username.Some? && username.value != ""
  }

  /** A POST to `home` whose URL names a user other than the viewer. */
  predicate PostsForOther(viewer: User, username: Option<string>) {
    Truthy(username) && username.value != viewer.username
  }

  /** A feed entry is marked liked exactly when the shown user has a like row for its tweet. */
  lemma LikeMarksExactly(feed: seq<Tweet>, likes: seq<Like>, shown: UserId, i: nat)
    requires i < |feed|
    ensures Annotated(feed, LikedTweetIds(likes, shown))[i].isLikedByUser <==> Like(shown, feed[i].id) in likes
  {
    LikedTweetIdsExactly(likes, shown, feed[i].id);
  }

  /** The follow graph of the timeline scenario: user 1 follows users 2 and 3. */
  lemma ScenarioFollowees()
    ensures Following(Followed(Followed([], 1, 2), 1, 3), 1) == [2, 3]
    ensures Following(Followed(Followed([], 1, 2), 1, 3), 2) == []
  {
    var e1, e2 := Relationship(1, 2), Relationship(1, 3);
    assert Followed([], 1, 2) == [e1];
    assert Followed([e1], 1, 3) == [e1] + [e2];
    var rows := [e1, e2];
    var out1 := (e: Relationship) => e.follower == 1;
    assert Filter([e2], out1) == [e2] + Filter([], out1);
    assert Filter(rows, out1) == [e1] + Filter([e2], out1);
    var out2 := (e: Relationship) => e.follower == 2;
    assert Filter([e2], out2) == Filter([], out2);
    assert Filter(rows, out2) == Filter([e2], out2);
  }

  /** The feed filter of the timeline scenario for user 1, who follows 2 and 3. */
  lemma ScenarioSelectionOfFollower(t1: Tweet, t2: Tweet, t3: Tweet)
    requires t1.user == Some(1) && t2.user == Some(2) && t3.user == Some(3)
    ensures Selected([t1, t2, t3], 1, [2, 3]) == [t1, t2, t3]
  {
    var p := (t: Tweet) => AuthoredBy(t, 1, [2, 3]);
    assert p(t1) && p(t2) && p(t3);
    assert [t1, t2, t3][1..] == [t2, t3];
    assert [t2, t3][1..] == [t3];
    assert Filter([t3], p) == [t3];
    assert Filter([t2, t3], p) == [t2, t3];
  }

  /** The feed filter of the timeline scenario for user 2, who follows nobody. */
  lemma ScenarioSelectionOfFollowed(t1: Tweet, t2: Tweet, t3: Tweet)
    requires t1.user == Some(1) && t2.user == Some(2) && t3.user == Some(3)
    ensures Selected([t1, t2, t3], 2, []) == [t2]
  {
    var p := (t: Tweet) => AuthoredBy(t, 2, []);
    assert !p(t1) && p(t2) && !p(t3);
    assert [t1, t2, t3][1..] == [t2, t3];
    assert [t2, t3][1..] == [t3];
    assert Filter([t3], p) == [];
    assert Filter([t2, t3], p) == [t2];
  }

  /**
   * The timeline scenario of the tests: users 1, 2 and 3 each own one
   * tweet and user 1 follows 2 and 3; user 1's home feed holds all three
   * tweets and user 2's holds only its own.
   */
  lemma TimelineScenario(t1: Tweet, t2: Tweet, t3: Tweet)
    requires t1.user == Some(1) && t2.user == Some(2) && t3.user == Some(3)
    ensures
      var rows := Followed(Followed([], 1, 2), 1, 3);
      && multiset(Timeline([t1, t2, t3], 1, Following(rows, 1))) == multiset{t1, t2, t3}
      && Timeline([t1, t2, t3], 2, Following(rows, 2)) == [t2]
  {
    ScenarioFollowees();
    ScenarioSelectionOfFollower(t1, t2, t3);
    ScenarioSelectionOfFollowed(t1, t2, t3);
    assert SortNewestFirst([t2]) == Insert(t2, SortNewestFirst([]));
  }

  /**
   * The tweet-table part of the database invariant: keys distinct and below
   * `next`, like rows naming only keys already handed out, contents within
   * the length bound, and every `likes_count` equal to its like rows.
   */
  predicate TweetsConsistent(tweets: seq<Tweet>, likes: seq<Like>, next: TweetId) {
    && (forall i | 0 <= i < |tweets| :: tweets[i].id < next)
    && (forall i, j | 0 <= i < j < |tweets| :: tweets[i].id != tweets[j].id)
    && (forall l | l in likes :: l.tweet < next)
    && (forall i | 0 <= i < |tweets| :: ValidContent(tweets[i].content))
    && (forall i | 0 <= i < |tweets| :: tweets[i].likesCount == LikeCount(likes, tweets[i].id))
  }

  /** Deleting a tweet keeps the invariant and leaves no tweet with its key. */
  lemma DeleteKeepsConsistent(tweets: seq<Tweet>, likes: seq<Like>, next: TweetId, i: nat)
    requires TweetsConsistent(tweets, likes, next) && i < |tweets|
    ensures TweetsConsistent(RemoveAt(tweets, i), likes, next)
    ensures forall t | t in RemoveAt(tweets, i) :: t.id != tweets[i].id
  {
    var r := RemoveAt(tweets, i);
    forall j | 0 <= j < |r|
      ensures r[j].id < next && ValidContent(r[j].content) && r[j].likesCount == LikeCount(likes, r[j].id)
      ensures r[j].id != tweets[i].id
    {
      var j' := if j < i then j else j + 1;
      assert r[j] == tweets[j'];
    }
    forall j, k | 0 <= j < k < |r| ensures r[j].id != r[k].id {
      var j', k' := if j < i then j else j + 1, if k < i then k else k + 1;
      assert r[j] == tweets[j'] && r[k] == tweets[k'];
    }
  }

  /** A toggle creates or deletes only the row `Like(u, t)`, so like rows still name keys below `next`. */
  lemma ToggleKeepsKeysBelow(likes: seq<Like>, u: UserId, t: TweetId, next: TweetId)
    requires forall l | l in likes :: l.tweet < next
    requires t < next
    ensures forall l | l in Toggled(likes, u, t) :: l.tweet < next
  {
    var toggled := Toggled(likes, u, t);
    forall l | l in toggled ensures l.tweet < next {
      assert l in multiset(toggled);
      if l != Like(u, t) {
        assert l in likes;
      }
    }
  }

  /** The counter update that goes with a toggle keeps every counter equal to its like rows. */
  lemma ToggleKeepsCounters(tweets: seq<Tweet>, likes: seq<Like>, u: UserId, i: nat)
    requires NoDuplicateRows(likes) && i < |tweets|
    requires forall j, k | 0 <= j < k < |tweets| :: tweets[j].id != tweets[k].id
    requires forall j | 0 <= j < |tweets| :: tweets[j].likesCount == LikeCount(likes, tweets[j].id)
    ensures
      var t := tweets[i].id;
      var r := tweets[i := tweets[i].(likesCount := tweets[i].likesCount + (if Like(u, t) in likes then -1 else 1))];
      forall j | 0 <= j < |r| :: r[j].likesCount == LikeCount(Toggled(likes, u, t), r[j].id)
  {
    var t := tweets[i].id;
    var r := tweets[i := tweets[i].(likesCount := tweets[i].likesCount + (if Like(u, t) in likes then -1 else 1))];
    forall j | 0 <= j < |r| ensures r[j].likesCount == LikeCount(Toggled(likes, u, t), r[j].id) {
      ToggleLikeCount(likes, u, t, tweets[j].id);
    }
  }

  /**
   * Toggling `u`'s like of the tweet at `i` together with moving that
   * tweet's `likes_count` by one keeps the invariant.
   */
  lemma ToggleKeepsConsistent(tweets: seq<Tweet>, likes: seq<Like>, next: TweetId, u: UserId, i: nat)
    requires TweetsConsistent(tweets, likes, next) && NoDuplicateRows(likes) && i < |tweets|
    ensures
      var t := tweets[i].id;
      var delta := if Like(u, t) in likes then -1 else 1;
      TweetsConsistent(tweets[i := tweets[i].(likesCount := tweets[i].likesCount + delta)], Toggled(likes, u, t), next)
  {
    var t := tweets[i].id;
    ToggleKeepsKeysBelow(likes, u, t, next);
    ToggleKeepsCounters(tweets, likes, u, i);
  }

  /**
   * `after` is `before` with the `likes_count` of the tweet at `i` one lower
   * when its like was there and one higher when it was not.
   */
  predicate ToggledCounter(before: seq<Tweet>, i: nat, wasLiked: bool, after: seq<Tweet>)
    requires i < |before|
  {
    after == before[i := before[i].(likesCount := before[i].likesCount + (if wasLiked then -1 else 1))]
  }

  /** A like toggle leaves the `likes` field, and so `count_likes`, of every tweet as it was. */
  lemma ToggledCounterKeepsCountLikes(before: seq<Tweet>, i: nat, wasLiked: bool, after: seq<Tweet>)
    requires i < |before| && ToggledCounter(before, i, wasLiked, after)
    ensures |after| == |before|
    ensures forall j | 0 <= j < |after| :: CountLikes(after[j]) == CountLikes(before[j])
  {
  }

  class Site {
    var users: seq<User>
    var tweets: seq<Tweet>
    var likes: seq<Like>
    /** The primary key the next tweet gets; keys are never reused. */
    var nextTweetId: TweetId
    const graph: RelationshipTable

    /**
     * Tweet keys are distinct and below `nextTweetId`, like rows name only
     * keys already handed out, neither table holds a row twice, every stored
     * content respects the length bound, and every tweet's `likes_count` is
     * the number of like rows for it.
     */
    ghost predicate Valid()
      reads this, graph
    {
      && NoDuplicateRows(graph.rows)
      && NoDuplicateRows(likes)
      && TweetsConsistent(tweets, likes, nextTweetId)
    }

    constructor (users: seq<User>)
      ensures Valid() && fresh(graph)
      ensures this.users == users && tweets == [] && likes == [] && graph.rows == []
    {
      this.users := users;
      tweets := [];
      likes := [];
      nextTweetId := 0;
      graph := new RelationshipTable();
    }

    /**
     * The page `home` renders for `viewer` showing `shown`: the tweets of
     * `shown` and of the viewer's followees, newest first, each marked by
     * whether `shown` liked it, and whether the viewer follows `shown`.
     */
    ghost function FeedPage(viewer: User, shown: User, showsForm: bool): Response
      reads this, graph
    {
      Page(shown,
           Annotated(Timeline(tweets, shown.id, Following(graph.rows, viewer.id)), LikedTweetIds(likes, shown.id)),
           IsFollowing(graph.rows, viewer.id, shown.id),
           showsForm)
    }

    /** The read-only tail of `home`: feed query, like marks and `following_profile`. */
    method RenderFeed(viewer: User, shown: User, showsForm: bool) returns (r: Response)
      ensures r == FeedPage(viewer, shown, showsForm)
    {
      var followees := Following(graph.rows, viewer.id);
      var feed := Timeline(tweets, shown.id, followees);
      var liked := LikedTweetIds(likes, shown.id);
      var items := new FeedItem[|feed|](i requires 0 <= i < |feed| => FeedItem(feed[i], false));
      AnnotateLikes(items, liked);
      assert items[..] == Annotated(feed, liked);
      r := Page(shown, items[..], IsFollowing(graph.rows, viewer.id, shown.id), showsForm);
    }

    /** `home`: create a tweet on a valid POST, then render a feed. */
    method Home(viewer: Option<User>, httpMethod: HttpMethod, username: Option<string>, content: string, now: int)
      returns (r: Response)
      requires Valid()
      modifies this
      ensures Valid()
      ensures users == old(users) && likes == old(likes)
      ensures r == RedirectToLogin <==> viewer.None? && (!Truthy(username) || httpMethod != GET)
      ensures viewer.None? && Truthy(username) && httpMethod == GET ==>
                r == (if FindUser(users, username.value).None? then NotFound else ServerError)
      ensures viewer.Some? && httpMethod == POST && PostsForOther(viewer.value, username) ==> r == Forbidden
      ensures viewer.Some? && httpMethod == POST && !PostsForOther(viewer.value, username) ==>
                r == FeedPage(viewer.value, viewer.value, true)
      ensures viewer.Some? && httpMethod != POST && username.None? ==>
                r == FeedPage(viewer.value, viewer.value, true)
      ensures viewer.Some? && httpMethod != POST && username.Some? ==>
                r == match FindUser(users, username.value)
                     case None => NotFound
                     case Some(shown) => FeedPage(viewer.value, shown, false)
      ensures if viewer.Some? && httpMethod == POST && !PostsForOther(viewer.value, username) && ValidContent(content)
              then tweets == old(tweets) + [Tweet(old(nextTweetId), Some(viewer.value.id), content, now, {}, 0)]
                   && nextTweetId == old(nextTweetId) + 1
              else tweets == old(tweets) && nextTweetId == old(nextTweetId)
    {
      if viewer.None? {
        if !Truthy(username) || httpMethod != GET {
          return RedirectToLogin;
        }
        // The profile lookup runs, then reading the followees of an anonymous user raises.
        match FindUser(users, username.value)
        case None => return NotFound;
        case Some(_) => return ServerError;
      }
      var me := viewer.value;
      var shown := me;
      var showsForm := true;
      if httpMethod == POST {
        if PostsForOther(me, username) {
          return Forbidden;
        }
        if ValidContent(content) {
          CreateTweet(me, content, now);
        }
      } else if username.Some? {
        match FindUser(users, username.value)
        case None => return NotFound;
        case Some(u) => shown := u;
        showsForm := false;
      }
      r := RenderFeed(me, shown, showsForm);
    }

    /** Stores a new tweet owned by `owner` under the next primary key. */
    method CreateTweet(owner: User, content: string, now: int)
      requires Valid()
      requires ValidContent(content)
      modifies this
      ensures Valid()
      ensures users == old(users) && likes == old(likes) && nextTweetId == old(nextTweetId) + 1
      ensures tweets == old(tweets) + [Tweet(old(nextTweetId), Some(owner.id), content, now, {}, 0)]
    {
      LikeCountZero(likes, nextTweetId);
      tweets := tweets + [Tweet(nextTweetId, Some(owner.id), content, now, {}, 0)];
      nextTweetId := nextTweetId + 1;
    }

    /** `follow`: the viewer follows the user named in the POST body. */
    method Follow(viewer: Option<User>, httpMethod: HttpMethod, username: Option<string>) returns (r: Response)
      requires Valid()
      modifies graph
      ensures Valid()
      ensures viewer.None? ==> r == RedirectToLogin
      ensures viewer.Some? && httpMethod != POST ==> r == MethodNotAllowed
      ensures viewer.Some? && httpMethod == POST && username.None? ==> r == ServerError
      ensures viewer.Some? && httpMethod == POST && username.Some? ==>
                match FindUser(users, username.value)
                case None => r == NotFound
                case Some(followed) =>
                  r == Redirect && graph.rows == Followed(old(graph.rows), viewer.value.id, followed.id)
      ensures r != Redirect ==> graph.rows == old(graph.rows)
    {
      if viewer.None? {
        return RedirectToLogin;
      }
      if httpMethod != POST {
        return MethodNotAllowed;
      }
      if username.None? {
        return ServerError;
      }
      match FindUser(users, username.value)
      case None =>
        return NotFound;
      case Some(followed) =>
        var outcome := graph.Follow(viewer.value.id, followed.id);
        assert outcome == Completed;
        r := Redirect;
    }

    /** `unfollow`: the viewer stops following the user named in the POST body. */
    method Unfollow(viewer: Option<User>, httpMethod: HttpMethod, username: Option<string>) returns (r: Response)
      requires Valid()
      modifies graph
      ensures Valid()
      ensures viewer.None? ==> r == RedirectToLogin
      ensures viewer.Some? && httpMethod != POST ==> r == MethodNotAllowed
      ensures viewer.Some? && httpMethod == POST && username.None? ==> r == ServerError
      ensures viewer.Some? && httpMethod == POST && username.Some? ==>
                match FindUser(users, username.value)
                case None => r == NotFound
                case Some(unfollowed) =>
                  r == Redirect && graph.rows == Unfollowed(old(graph.rows), viewer.value.id, unfollowed.id)
      ensures r != Redirect ==> graph.rows == old(graph.rows)
    {
      if viewer.None? {
        return RedirectToLogin;
      }
      if httpMethod != POST {
        return MethodNotAllowed;
      }
      if username.None? {
        return ServerError;
      }
      match FindUser(users, username.value)
      case None =>
        return NotFound;
      case Some(unfollowed) =>
        var outcome := graph.Unfollow(viewer.value.id, unfollowed.id);
        assert outcome == Completed;
        r := Redirect;
    }

    /** `delete_tweet`: only the owner may delete a tweet. */
    method DeleteTweet(viewer: Option<User>, tweetId: TweetId) returns (r: Response)
      requires Valid()
      modifies this
      ensures Valid()
      ensures users == old(users) && likes == old(likes) && nextTweetId == old(nextTweetId)
      ensures viewer.None? ==> r == RedirectToLogin
      ensures viewer.Some? ==>
                match FindTweet(old(tweets), tweetId)
                case None => r == NotFound
                case Some(i) =>
                  if old(tweets)[i].user != Some(viewer.value.id) then r == PermissionDenied
                  else r == Redirect && tweets == RemoveAt(old(tweets), i)
      ensures r == Redirect ==>
                multiset(tweets) == multiset(old(tweets)) - multiset{old(tweets)[FindTweet(old(tweets), tweetId).value]}
                && forall t | t in tweets :: t.id != tweetId
      ensures r != Redirect ==> tweets == old(tweets)
    {
      if viewer.None? {
        return RedirectToLogin;
      }
      match FindTweet(tweets, tweetId)
      case None =>
        return NotFound;
      case Some(i) =>
        if tweets[i].user != Some(viewer.value.id) {
          return PermissionDenied;
        }
        DeleteKeepsConsistent(tweets, likes, nextTweetId, i);
        tweets := RemoveAt(tweets, i);
        r := Redirect;
    }

    /**
     * `like_tweet`: deletes the viewer's like of the tweet if there is one
     * and creates it otherwise; the tweet's `likes_count` moves with it.
     */
    method LikeTweet(viewer: Option<User>, tweetId: TweetId) returns (r: Response)
      requires Valid()
      modifies this
      ensures Valid()
      ensures users == old(users) && nextTweetId == old(nextTweetId)
      ensures viewer.None? ==> r == RedirectToLogin
      ensures viewer.Some? && FindTweet(old(tweets), tweetId).None? ==> r == NotFound
      ensures viewer.Some? && FindTweet(old(tweets), tweetId).Some? ==>
                && r == Ok
                && likes == Toggled(old(likes), viewer.value.id, tweetId)
                && ToggledCounter(old(tweets), FindTweet(old(tweets), tweetId).value, Like(viewer.value.id, tweetId) in old(likes), tweets)
      ensures r != Ok ==> likes == old(likes) && tweets == old(tweets)
    {
      if viewer.None? {
        return RedirectToLogin;
      }
      match FindTweet(tweets, tweetId)
      case None =>
        return NotFound;
      case Some(i) =>
        ToggleLike(viewer.value.id, i);
        r := Ok;
    }

    /**
     * The get-then-create-or-delete of `like_tweet` on the viewer `u`'s like
     * of the tweet at `i`.
     */
    method ToggleLike(u: UserId, i: nat)
      requires Valid() && i < |tweets|
      modifies this
      ensures Valid()
      ensures users == old(users) && nextTweetId == old(nextTweetId)
      ensures likes == Toggled(old(likes), u, old(tweets)[i].id)
      ensures ToggledCounter(old(tweets), i, Like(u, old(tweets)[i].id) in old(likes), tweets)
    {
      var like := Like(u, tweets[i].id);
      match Get(likes, like)
      case DoesNotExist =>
        CreateLike(u, i);
      case Found(k) =>
        DeleteLike(k, i);
      case MultipleObjectsReturned =>
        assert false;
    }

    /**
     * `Like.objects.create(user=u, tweet=...)` for the tweet at `i`, with the
     * hook that raises that tweet's `likes_count` by one.
     */
    method CreateLike(u: UserId, i: nat)
      requires Valid() && i < |tweets| && Like(u, tweets[i].id) !in likes
      modifies this
      ensures Valid()
      ensures users == old(users) && nextTweetId == old(nextTweetId)
      ensures likes == old(likes) + [Like(u, old(tweets)[i].id)]
      ensures tweets == old(tweets)[i := old(tweets)[i].(likesCount := old(tweets)[i].likesCount + 1)]
    {
      ToggleKeepsConsistent(tweets, likes, nextTweetId, u, i);
      likes := likes + [Like(u, tweets[i].id)];
      tweets := tweets[i := tweets[i].(likesCount := tweets[i].likesCount + 1)];
    }

    /**
     * `like.delete()` of the like row at `k`, a row for the tweet at `i`,
     * with the hook that lowers that tweet's `likes_count` by one.
     */
    method DeleteLike(k: nat, i: nat)
      requires Valid() && i < |tweets| && k < |likes| && likes[k].tweet == tweets[i].id
      requires Get(likes, likes[k]) == Found(k)
      modifies this
      ensures Valid()
      ensures users == old(users) && nextTweetId == old(nextTweetId)
      ensures likes == RemoveAt(old(likes), k)
      ensures tweets == old(tweets)[i := old(tweets)[i].(likesCount := old(tweets)[i].likesCount - 1)]
    {
      ToggleKeepsConsistent(tweets, likes, nextTweetId, likes[k].user, i);
      likes := RemoveAt(likes, k);
      tweets := tweets[i := tweets[i].(likesCount := tweets[i].likesCount - 1)];
    }
  }
}
