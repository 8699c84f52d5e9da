/**
 * The feed query of the `home` view: the tweets whose owner is the shown
 * user or one of the viewer's followees, newest first (the tweet model's
 * default ordering on `-created`), and the loop that marks each of them
 * with whether the shown user liked it.
 */
module Feed {
  import opened Tables
  import opened Models

  /** The owner of `t` is `shown`, or is among `followees`: `Q(user=shown) | Q(user__in=followees)`. */
  predicate AuthoredBy(t: Tweet, shown: UserId, followees: seq<UserId>) {
    t.user == Some(shown) || (t.user.Some? && t.user.value in followees)
  }

  /** The tweet rows the feed filter keeps, in storage order: the stored tweets of `shown` and of the followees. */
  function Selected(tweets: seq<Tweet>, shown: UserId, followees: seq<UserId>): (r: seq<Tweet>)
    ensures |r| <= |tweets|
    ensures forall t | t in r :: t in tweets && AuthoredBy(t, shown, followees)
    ensures forall t | t in tweets && AuthoredBy(t, shown, followees) :: t in r
  {
    Filter(tweets, (t: Tweet) => AuthoredBy(t, shown, followees))
  }

  /** Ordering `-created`: no tweet comes before a strictly newer one. */
  predicate NewestFirst(s: seq<Tweet>) {
    forall i, j | 0 <= i < j < |s| :: s[i].created >= s[j].created
  }

  /** Puts `t` in front of the first tweet that is not newer than it. */
  function Insert(t: Tweet, s: seq<Tweet>): (r: seq<Tweet>)
    ensures multiset(r) == multiset(s) + multiset{t}
  {
    if s == [] || t.created >= s[0].created then
      [t] + s
    else
      assert s == [s[0]] + s[1..];
      [s[0]] + Insert(t, s[1..])
  }

  /** A tweet no older than any of a newest-first sequence can go in front of it. */
  lemma PrependNewestFirst(x: Tweet, s: seq<Tweet>)
    requires NewestFirst(s)
    requires forall y | y in s :: y.created <= x.created
    ensures NewestFirst([x] + s)
  {
    var r := [x] + s;
    forall i, j | 0 <= i < j < |r| ensures r[i].created >= r[j].created {
      assert r[j] == s[j - 1];
      if i > 0 {
        assert r[i] == s[i - 1];
      }
    }
  }

  /** Inserting into a newest-first sequence keeps it newest first. */
  lemma {:induction false} InsertNewestFirst(t: Tweet, s: seq<Tweet>)
    requires NewestFirst(s)
    ensures NewestFirst(Insert(t, s))
  {
    if s == [] || t.created >= s[0].created {
      forall y | y in s ensures y.created <= t.created {
        var j :| 0 <= j < |s| && s[j] == y;
        assert s[0].created >= s[j].created;
      }
      PrependNewestFirst(t, s);
    } else {
      var tail := s[1..];
      assert NewestFirst(tail) by {
        forall i, j | 0 <= i < j < |tail| ensures tail[i].created >= tail[j].created {
          assert tail[i] == s[i + 1] && tail[j] == s[j + 1];
        }
      }
      InsertNewestFirst(t, tail);
      var rest := Insert(t, tail);
      forall x | x in rest ensures x.created <= s[0].created {
        assert x in multiset(rest);
        if x != t {
          assert x in multiset(tail);
          var j :| 0 <= j < |tail| && tail[j] == x;
          assert s[j + 1] == x;
        }
      }
      PrependNewestFirst(s[0], rest);
    }
  }

  /** The rows of `s` ordered newest first. */
  function SortNewestFirst(s: seq<Tweet>): (r: seq<Tweet>)
    ensures multiset(r) == multiset(s)
    ensures NewestFirst(r)
  {
    if s == [] then []
    else
      assert s == [s[0]] + s[1..];
      InsertNewestFirst(s[0], SortNewestFirst(s[1..]));
      Insert(s[0], SortNewestFirst(s[1..]))
  }

  /** The tweets the feed shows, newest first. */
  function Timeline(tweets: seq<Tweet>, shown: UserId, followees: seq<UserId>): (r: seq<Tweet>)
    ensures NewestFirst(r)
    ensures multiset(r) == multiset(Selected(tweets, shown, followees))
  {
    SortNewestFirst(Selected(tweets, shown, followees))
  }

  /**
   * A tweet is in the feed exactly when it is stored and owned by the shown
   * user or by one of the followees; tweets of anyone else, and tweets with
   * no owner, are absent.
   */
  lemma TimelineExactly(tweets: seq<Tweet>, shown: UserId, followees: seq<UserId>, t: Tweet)
    ensures t in Timeline(tweets, shown, followees) <==> t in tweets && AuthoredBy(t, shown, followees)
  {
    var sel := Selected(tweets, shown, followees);
    assert t in Timeline(tweets, shown, followees) <==> t in multiset(sel);
  }

  /**
   * The feed holds each stored tweet of the shown user or a followee exactly
   * as often as it is stored, and nothing else.
   */
  lemma TimelineMultiset(tweets: seq<Tweet>, shown: UserId, followees: seq<UserId>, t: Tweet)
    ensures multiset(Timeline(tweets, shown, followees))[t] ==
              if AuthoredBy(t, shown, followees) then multiset(tweets)[t] else 0
  {
    FilterMultiset(tweets, (x: Tweet) => AuthoredBy(x, shown, followees), t);
  }

  /** A tweet table without repeated rows gives a feed without repeated tweets. */
  lemma TimelineNoRepeats(tweets: seq<Tweet>, shown: UserId, followees: seq<UserId>)
    requires NoDuplicateRows(tweets)
    ensures NoDuplicateRows(Timeline(tweets, shown, followees))
  {
    forall t | t in Timeline(tweets, shown, followees)
      ensures multiset(Timeline(tweets, shown, followees))[t] == 1
    {
      TimelineMultiset(tweets, shown, followees, t);
      TimelineExactly(tweets, shown, followees, t);
    }
  }

  /**
   * With the followee list read from the follow graph, a tweet is in the
   * feed exactly when it is owned by the shown user or by someone the
   * viewer follows.
   */
  lemma FeedFromGraphExactly(tweets: seq<Tweet>, rows: seq<Relationship>, viewer: UserId, shown: UserId, t: Tweet)
    ensures t in Timeline(tweets, shown, Following(rows, viewer)) <==>
              t in tweets && (t.user == Some(shown) || (t.user.Some? && IsFollowing(rows, viewer, t.user.value)))
  {
    TimelineExactly(tweets, shown, Following(rows, viewer), t);
    if t.user.Some? {
      FollowingExactly(rows, viewer, t.user.value);
    }
  }

  /** A feed entry: the tweet and the `is_liked_by_user` mark set on it. */
  datatype FeedItem = FeedItem(tweet: Tweet, isLikedByUser: bool)

  /** The feed with every tweet marked by whether its id is among `liked`. */
  function Annotated(feed: seq<Tweet>, liked: seq<TweetId>): (r: seq<FeedItem>)
    ensures |r| == |feed|
    ensures forall i | 0 <= i < |r| :: r[i].tweet == feed[i]
  {
    seq(|feed|, i requires 0 <= i < |feed| => FeedItem(feed[i], feed[i].id in liked))
  }

  /**
   * The `for tweet in tweets` loop: sets each entry's mark to whether its
   * tweet is among the liked tweets, and changes nothing else.
   */
  method AnnotateLikes(items: array<FeedItem>, liked: seq<TweetId>)
    modifies items
    ensures forall i | 0 <= i < items.Length ::
              items[i].tweet == old(items[i].tweet) && (items[i].isLikedByUser <==> items[i].tweet.id in liked)
  {
    var k := 0;
    while k < items.Length
      invariant 0 <= k <= items.Length
      invariant forall i | 0 <= i < k ::
                  items[i].tweet == old(items[i].tweet) && (items[i].isLikedByUser <==> items[i].tweet.id in liked)
      invariant forall i | k <= i < items.Length :: items[i] == old(items[i])
    {
      if items[k].tweet.id in liked {
        items[k] := items[k].(isLikedByUser := true);
      } else {
        items[k] := items[k].(isLikedByUser := false);
      }
      k := k + 1;
    }
  }
}
