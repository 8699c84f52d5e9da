# Twitter timeline: follow graph, likes and feed, in Dafny

This project models the bookkeeping behind the timeline of a small Django
"twitter" application: the follow graph kept by the user model, the like
table with the tweet's `likes_count` counter, the feed query of the `home`
view, and the request handlers `home`, `follow`, `unfollow`, `delete_tweet`
and `like_tweet`.

Modules, one per concern:

- `Tables` (`tables.dfy`): what the ORM does with a table. A table is a
  sequence of rows in storage order; `filter(...)` is `Filter`, a `delete()`
  of one row is `RemoveAt`, and `get(...)` is `Get`, which tells apart no
  match, exactly one match and several matches (`MultipleObjectsReturned`).
  Neither the Relationship table nor the Like table has a uniqueness
  constraint, so "no row twice" (`NoDuplicateRows`) is an invariant that the
  handlers keep, not a given.
- `Models` (`models.dfy`): users, tweets (nullable owner, content of at most
  140 characters, blank allowed, abstract `created` timestamp, the
  many-to-many `likes` field and the `likes_count` counter; the content
  bound of `twitter_timeline/twitter/models.py:15` is `ValidContent`), the
  `Relationship` table and the user model's queries over it (`IsFollowing`,
  `Following`, `Followers`, `CountFollowing`, `CountFollowers`), the table
  after `follow` and `unfollow` as functions (`Followed`, `Unfollowed`), and
  the class `RelationshipTable` whose `Follow` and `Unfollow` methods update
  the shared table in place.
- `Likes` (`likes.dfy`): the `Like` table of (user, tweet) rows, the number
  of rows per tweet that `likes_count` must track (`LikeCount`), and the
  table after a like toggle (`Toggled`).
- `Feed` (`feed.dfy`): the feed filter `Q(user=shown) | Q(user__in=followees)`
  of `twitter_timeline/twitter/views.py:46` (`AuthoredBy` for one tweet,
  `Selected` for the table), the `-created` ordering as an insertion sort,
  and the loop that sets `is_liked_by_user` on each feed entry
  (`AnnotateLikes`, on an array).
- `Views` (`views.dfy`): the class `Site` holding the database (users,
  tweets, like rows, the next tweet key and the relationship table) and one
  method per handler. A handler returns a response tag (`Page`, `Redirect`,
  `RedirectToLogin`, `Ok`, `Forbidden`, `NotFound`, `PermissionDenied`,
  `MethodNotAllowed`, `ServerError`) instead of an HTTP response. The
  authenticated user is the `viewer` parameter (`None` when anonymous), the
  clock is the `now` parameter. `Truthy` is the truth test on the optional
  `username` argument (`twitter_timeline/twitter/views.py:24`), and
  `PostsForOther` the guard of `twitter_timeline/twitter/views.py:30`.

Behaviour kept as the code has it:

- `followers` collects `rel.following`, which is the user itself; see
  Findings.
- The feed of a profile page holds the shown user's tweets together with
  the tweets of the *viewer's* followees, not the shown user's tweets alone.
- The `is_liked_by_user` marks come from the likes of the *shown* user, not
  of the viewer.
- An anonymous GET of a profile passes the login check, looks the user up
  (unknown name: `NotFound`) and then reads `request.user.following` on the
  anonymous user, which raises; the model answers `ServerError`.
- `follow` and `unfollow` read `request.POST['username']`; a missing key
  raises and the model answers `ServerError`. Both handlers accept only POST.
- `delete_tweet` refuses a tweet without an owner too, since `None` differs
  from every user.
- `count_likes` counts the many-to-many `likes` field, which no handler
  writes; `like_tweet` works on the separate `Like` table, whose rows move
  `likes_count`. `LikeTweet` changes only the counter of the toggled tweet,
  and `ToggledCounterKeepsCountLikes` states that `CountLikes` of every
  tweet is then left as it was.
- The `likes_count` hooks are not part of the modelled files; they are
  modelled as the +1 or -1 that `like_tweet` applies with each created or
  deleted row, which is what the tests assert.

## Model

| member | source | states |
|---|---|---|
| `Models.CountLikes` | twitter_timeline/twitter/models.py:17-19 | the like count is zero exactly when the `likes` field is empty, and one more than the count without any one liker |
| `Models.FindUser` | twitter_timeline/twitter/views.py:42-44 | a found user is stored and has the asked username; no result exactly when no stored user has that username |
| `Models.FindTweet` | twitter_timeline/twitter/views.py:84 | a found position holds the tweet with the asked key; no result exactly when no stored tweet has that key |
| `Models.IsFollowing` | twitter_timeline/twitter/models.py:63-65 | the query for edges from `a` to `b` is non-empty exactly when the edge (a, b) is stored |
| `Models.CountFollowing` | twitter_timeline/twitter/models.py:77-79 | the following count is at most the number of edges |
| `Models.CountFollowingZero` | twitter_timeline/twitter/models.py:77-79 | the following count of `u` is zero exactly when no edge leaves `u` |
| `Models.CountFollowers` | twitter_timeline/twitter/models.py:81-83 | the follower count is at most the number of edges |
| `Models.CountFollowersZero` | twitter_timeline/twitter/models.py:81-83 | the follower count of `u` is zero exactly when no edge enters `u` |
| `Models.Following` | twitter_timeline/twitter/models.py:67-70 | `following` has one entry per edge leaving the user, so its length is `count_following` |
| `Models.FollowingExactly` | twitter_timeline/twitter/models.py:67-70 | a user is in `following(u)` exactly when `is_following(u, v)` holds |
| `Models.Followers` | twitter_timeline/twitter/models.py:72-75 | as written, `followers(u)` has length `count_followers(u)` and every entry is `u` itself |
| `Models.FollowersNamesTheFollowedUser` | twitter_timeline/twitter/models.py:72-75 | with the single edge 1 -> 2, `followers(2)` is `[2]` and does not contain the follower 1 |
| `Models.FollowerUsers` | twitter_timeline/twitter/models.py:72-75 | the corrected `followers` has length `count_followers(u)` |
| `Models.FollowerUsersExactly` | twitter_timeline/twitter/models.py:72-75 | a user is in the corrected `followers(u)` exactly when it follows `u` |
| `Models.Followed` | twitter_timeline/twitter/models.py:48-53 | after `follow(a, b)` `a` follows `b`; an existing edge means no row is added; otherwise exactly that edge is added; no other edge changes; a table without duplicate rows stays so |
| `Models.Unfollowed` | twitter_timeline/twitter/models.py:55-61 | without the edge the table is unchanged; with one such edge exactly it is removed; with several copies (the lookup raises) the table is unchanged; no other edge changes; on a table without duplicates `a` no longer follows `b` afterwards |
| `Models.FollowIdempotent` | twitter_timeline/twitter/models.py:48-53 | following the same pair twice gives the same table as once |
| `Models.FollowCounts` | twitter_timeline/twitter/models.py:77-83 | `follow(a, b)` raises `count_following(a)` and `count_followers(b)` by one when the edge was new, and leaves every other count alone |
| `Models.UnfollowCounts` | twitter_timeline/twitter/models.py:77-83 | `unfollow(a, b)` lowers `count_following(a)` and `count_followers(b)` by one when the edge existed, and leaves every other count alone |
| `Models.UnfollowUndoesFollow` | twitter_timeline/twitter/models.py:48-61 | `unfollow` right after a `follow` that created the edge restores the table exactly |
| `Models.RelationshipTable.Follow` | twitter_timeline/twitter/models.py:48-53 | the table becomes `Followed` of the old one; the method raises only when the lookup finds several rows, never on a table without duplicates |
| `Models.RelationshipTable.Unfollow` | twitter_timeline/twitter/models.py:55-61 | the table becomes `Unfollowed` of the old one; the method raises only when the lookup finds several rows, never on a table without duplicates |
| `Likes.LikeCount` | tests/test_timeline.py:148-168 | the number of like rows for a tweet, the value `likes_count` must equal, is at most the number of like rows |
| `Likes.LikeCountZero` | tests/test_timeline.py:148-156 | a tweet's like count is zero exactly when no like row names it, as for a fresh tweet |
| `Likes.LikedTweetIds` | twitter_timeline/twitter/views.py:47 | one liked tweet per like row of the user, so no more entries than like rows |
| `Likes.LikedTweetIdsExactly` | twitter_timeline/twitter/views.py:47 | a tweet is among the user's liked tweets exactly when the user has a like row for it |
| `Likes.Toggled` | twitter_timeline/twitter/views.py:94-100 | a missing like row is created, a single existing one deleted, several matches leave the table unchanged; without duplicates the like is present afterwards exactly when it was absent before |
| `Likes.ToggleTwiceRestores` | twitter_timeline/twitter/views.py:94-100 | toggling the same like twice restores the same rows and the same liked state |
| `Likes.ToggleLikeCount` | tests/test_timeline.py:148-168 | creating a like row raises that tweet's row count by exactly one, deleting one lowers it by exactly one, and other tweets' counts do not move |
| `Feed.Selected` | twitter_timeline/twitter/views.py:46 | a tweet is kept exactly when it is stored and owned by the shown user or one of the followees, and no more rows than stored come back |
| `Tables.FilterMultiset` | twitter_timeline/twitter/views.py:46 | a `filter(...)` query returns each matching row exactly as often as it is stored, and no row that does not match |
| `Feed.Insert` | twitter_timeline/twitter/models.py:10 | inserting a tweet adds exactly that tweet to the rows |
| `Feed.InsertNewestFirst` | twitter_timeline/twitter/models.py:10 | inserting into a newest-first sequence keeps it newest first |
| `Feed.SortNewestFirst` | twitter_timeline/twitter/models.py:10 | the result is a permutation of the rows, ordered by `created` descending |
| `Feed.Timeline` | twitter_timeline/twitter/views.py:46 | the feed is ordered newest first and is a permutation of the rows the filter keeps |
| `Feed.TimelineMultiset` | twitter_timeline/twitter/views.py:46 | the feed holds each stored tweet of the shown user or a followee exactly as often as it is stored, and no other tweet |
| `Feed.TimelineNoRepeats` | twitter_timeline/twitter/views.py:46 | a tweet table without repeated rows gives a feed in which no tweet appears twice |
| `Feed.TimelineExactly` | twitter_timeline/twitter/views.py:46 | a tweet is in the feed exactly when it is stored and owned by the shown user or one of the followees |
| `Feed.FeedFromGraphExactly` | twitter_timeline/twitter/views.py:45-46 | with followees read from the graph, a tweet is in the feed exactly when it is owned by the shown user or by someone the viewer follows |
| `Feed.Annotated` | twitter_timeline/twitter/views.py:49-53 | annotation keeps the feed's length and keeps each entry's tweet in place |
| `Feed.AnnotateLikes` | twitter_timeline/twitter/views.py:49-53 | after the loop each entry's mark is true exactly when its tweet is among the liked tweets, and each entry's tweet is unchanged |
| `Views.LikeMarksExactly` | twitter_timeline/twitter/views.py:47-53 | a feed entry is marked liked exactly when the shown user has a like row for its tweet |
| `Views.TimelineScenario` | tests/test_timeline.py:8-45 | when user 1 follows users 2 and 3 and each of the three owns one tweet, user 1's feed holds all three and user 2's holds only its own |
| `Views.DeleteKeepsConsistent` | twitter_timeline/twitter/views.py:84-87 | deleting a tweet keeps keys distinct, contents bounded and counters exact, and leaves no tweet with its key |
| `Views.ToggleKeepsConsistent` | twitter_timeline/twitter/views.py:94-100 | toggling a like and moving that tweet's `likes_count` by one keeps every tweet's counter equal to its like rows |
| `Views.Site.RenderFeed` | twitter_timeline/twitter/views.py:45-61 | the page shows the shown user, the feed with its like marks, and `following_profile == is_following(viewer, shown)` |
| `Views.Site.Home` | twitter_timeline/twitter/views.py:22-61 | anonymous requests are redirected unless a GET names a user; a POST naming another user is forbidden and creates nothing; a valid POST adds one tweet owned by the viewer; an unknown profile gives NotFound; otherwise the page of `RenderFeed` |
| `Views.Site.CreateTweet` | twitter_timeline/twitter/views.py:33-36 | one tweet owned by the viewer, with a new key, no likes and a zero counter, is appended, and the invariant is kept |
| `Views.Site.Follow` | twitter_timeline/twitter/views.py:64-70 | anonymous: redirect to login; not POST: method not allowed; unknown user: NotFound; otherwise the graph becomes `Followed` and the response is a redirect |
| `Views.Site.Unfollow` | twitter_timeline/twitter/views.py:73-79 | anonymous: redirect to login; not POST: method not allowed; unknown user: NotFound; otherwise the graph becomes `Unfollowed` and the response is a redirect |
| `Views.Site.DeleteTweet` | twitter_timeline/twitter/views.py:82-89 | unknown key: NotFound; not the owner: PermissionDenied with the tweets unchanged; the owner's request removes exactly that tweet |
| `Views.Site.LikeTweet` | twitter_timeline/twitter/views.py:92-101 | anonymous: redirect to login; unknown key: NotFound; otherwise `Ok`, the like table is toggled and that tweet's `likes_count` moves by exactly one in the matching direction, so `count_likes` of every tweet is unchanged (`ToggledCounterKeepsCountLikes`), and every counter still equal to its like rows |
| `Views.Site.ToggleLike` | twitter_timeline/twitter/views.py:95-100 | the like table becomes `Toggled` of the old one and the tweet's `likes_count` falls by one if the like existed and rises by one if not |
| `Views.Site.CreateLike` | twitter_timeline/twitter/views.py:98 | a missing like row is appended and the liked tweet's `likes_count` rises by exactly one, keeping the invariant |
| `Views.Site.DeleteLike` | twitter_timeline/twitter/views.py:100 | the one like row is removed and the liked tweet's `likes_count` falls by exactly one, keeping the invariant |
| `Views.ToggledCounterKeepsCountLikes` | twitter_timeline/twitter/models.py:17-19 | a like toggle with its counter move keeps the length of the tweet list and `count_likes` of every tweet |
| `Views.ToggleKeepsCounters` | tests/test_timeline.py:148-168 | after a toggle and its counter move, every tweet's `likes_count` equals the number of its like rows |

## Left out

- Rendering, templates, `messages`, the `next` redirect target and the
  `logout` view: framework calls, reduced to response tags.
- `TweetForm` is not part of this model; its validation is reduced to the
  140-character bound of the `content` field.
- The `Like` model and the hooks that maintain `likes_count` are not part of
  this model; the hooks are modelled as the counter change `LikeTweet`
  makes, and the `created` timestamp of a like row is left out.
- Atomicity and concurrency of the counter update: the model is sequential.
- Cascade on delete: deleting a tweet leaves its like rows in place (their
  key is never reused), and deleting users is not modelled.
- `TimeStampedModel`: `created` is the `now` parameter, `modified` is left out.
- `add_like_from_user` and `remove_like_from_user`: declared as properties
  that take an argument, so they cannot be called; not modelled.
- Ties in `created`: the database leaves their order open; the model sorts
  them in one fixed way and states only newest-first order and permutation.
- Registration and username uniqueness: the user list is given;
  `FindUser` returns the first match.
- Primary keys of Relationship and Like rows: rows are compared by their
  fields.
- `Feed.Annotated`: its own contract does not state the marks; they are
  stated by `Feed.AnnotateLikes` and `Views.LikeMarksExactly`.
- `Models.CountFollowing`: its own contract only bounds the count; when it is
  zero is stated by `Models.CountFollowingZero`, how it moves by
  `Models.FollowCounts` and `Models.UnfollowCounts`.
- `Models.CountFollowers`: its own contract only bounds the count; when it is
  zero is stated by `Models.CountFollowersZero`, how it moves by
  `Models.FollowCounts` and `Models.UnfollowCounts`.
- `Likes.LikeCount`: its own contract only bounds the count; when it is zero
  is stated by `Likes.LikeCountZero`, how it moves by `Likes.ToggleLikeCount`.
- `Likes.LikedTweetIds`: its own contract only bounds the length; membership
  is stated by `Likes.LikedTweetIdsExactly`.

## Findings

| source | as written | input that shows it | evidently intended | confidence | as-written member | corrected member |
|---|---|---|---|---|---|---|
| twitter_timeline/twitter/models.py:72-75 | `followers` collects `rel.following`, which is the user itself, once per follower | one edge from user 1 to user 2: `followers` of user 2 is `[2]` and misses user 1 | collect `rel.follower`, the users following `u` | high; not executed | `Models.FollowersNamesTheFollowedUser` | `Models.FollowerUsersExactly` |
