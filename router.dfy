/**
 * The tweet router's procedures over the store: the two feed queries, which
 * choose a filter and delegate to `GetInfiniteTweets`, and the two mutations,
 * `Create` and `ToggleLike`, which need a signed-in caller.
 */
module TweetRouter {
  import opened Wrappers
  import opened Entities
  import opened Likes
  import opened FeedQuery

  /** The limit a feed query uses when the caller gives none. */
  const DefaultLimit: nat := 10

  /** A protected procedure called without a session is rejected. */
  datatype RouterError = Unauthorized

  /** The store's tables; the router reads them and its mutations change them. */
  class Store {
    var tweets: seq<Tweet>
    var likes: set<Like>
    var follows: set<Follow>

    /** Tweet ids are the primary key. A like is a set element, so each pair occurs at most once. */
    ghost predicate Valid(): (b: bool)
      reads this
      ensures b ==> forall x, y :: x in tweets && y in tweets && x.id == y.id ==> x == y
    {
      if UniqueIds(tweets) then IdNamesOneTweet(tweets); true else false
    }

    constructor ()
      ensures Valid() && tweets == [] && likes == {} && follows == {}
    {
      tweets, likes, follows := [], {}, {};
    }
  }

  // ---------------------------------------------------------------------
  // Filter choice.
  // ---------------------------------------------------------------------

  /**
   * The home feed's filter: all tweets for an anonymous caller or when only
   * followed authors are not asked for; otherwise the tweets whose author the
   * caller follows.
   */
  function FeedFilter(caller: Option<UserId>, onlyFollowing: bool): (where: Filter)
    ensures forall t, follows :: Matches(t, where, follows) <==>
      (caller.None? || !onlyFollowing || Follow(caller.value, t.userId) in follows)
  {
    if caller.None? || !onlyFollowing then All else FollowingOnly(caller.value)
  }

  /** The profile feed's filter: the tweets the given user wrote. */
  function ProfileFilter(userId: UserId): (where: Filter)
    ensures forall t, follows :: Matches(t, where, follows) <==> t.userId == userId
  {
    ByUser(userId)
  }

  /** The home feed holds exactly the stored tweets its filter admits. */
  lemma FeedSelects(tweets: seq<Tweet>, follows: set<Follow>, caller: Option<UserId>, onlyFollowing: bool)
    requires UniqueIds(tweets)
    ensures forall t :: t in Ordered(tweets, FeedFilter(caller, onlyFollowing), follows) <==>
      t in tweets && (caller.None? || !onlyFollowing || Follow(caller.value, t.userId) in follows)
  {
    OrderedSpec(tweets, FeedFilter(caller, onlyFollowing), follows);
  }

  /** The profile feed holds exactly the stored tweets of the requested user. */
  lemma ProfileSelects(tweets: seq<Tweet>, follows: set<Follow>, userId: UserId)
    requires UniqueIds(tweets)
    ensures forall t :: t in Ordered(tweets, ProfileFilter(userId), follows) <==>
      t in tweets && t.userId == userId
  {
    OrderedSpec(tweets, ProfileFilter(userId), follows);
  }

  /** An anonymous caller asking for followed authors only gets the public feed. */
  lemma AnonymousFallsBack(tweets: seq<Tweet>, follows: set<Follow>)
    ensures Ordered(tweets, FeedFilter(None, true), follows) == Ordered(tweets, All, follows)
    ensures Ordered(tweets, FeedFilter(None, true), follows) == Ordered(tweets, FeedFilter(None, false), follows)
  {
  }

  // ---------------------------------------------------------------------
  // Queries.
  // ---------------------------------------------------------------------

  /**
   * `getInfiniteTweets`: fetch `limit + 1` rows from the cursor on, pop the
   * extra row into `nextCursor`, and map the rest to views.
   */
  method GetInfiniteTweets(db: Store, where: Filter, caller: Option<UserId>,
                           limit: int, cursor: Option<Cursor>) returns (page: Page)
    requires limit >= 0
    requires CursorOk(Ordered(db.tweets, where, db.follows), cursor)
    ensures page == PageOf(Ordered(db.tweets, where, db.follows), db.likes, caller, limit, cursor)
  {
    var data := FindMany(db.tweets, db.follows, where, cursor, limit + 1);
    ghost var L := Ordered(db.tweets, where, db.follows);
    ghost var s := StartOf(L, cursor);
    FetchAndPop(L, s, limit, data);
    var nextCursor: Option<Cursor> := None;
    if |data| > limit {
      var nextItem := data[|data| - 1];
      data := data[..|data| - 1];
      nextCursor := Some(KeyOf(nextItem));
    }
    page := Page(Enrich(data, db.likes, caller), nextCursor);
  }

  /** `infiniteFeed`: the home feed, `limit` 10 and `onlyFollowing` false when omitted. */
  method InfiniteFeed(db: Store, session: Option<UserId>, onlyFollowing: Option<bool>,
                      limit: Option<int>, cursor: Option<Cursor>) returns (page: Page)
    requires limit.None? || limit.value >= 0
    requires CursorOk(Ordered(db.tweets, FeedFilter(session, onlyFollowing.GetOr(false)), db.follows), cursor)
    ensures page == PageOf(Ordered(db.tweets, FeedFilter(session, onlyFollowing.GetOr(false)), db.follows),
                           db.likes, session, limit.GetOr(DefaultLimit), cursor)
  {
    var where := FeedFilter(session, onlyFollowing.GetOr(false));
    page := GetInfiniteTweets(db, where, session, limit.GetOr(DefaultLimit), cursor);
  }

  /** `infiniteProfileFeed`: one user's tweets, `limit` 10 when omitted. */
  method InfiniteProfileFeed(db: Store, session: Option<UserId>, userId: UserId,
                             limit: Option<int>, cursor: Option<Cursor>) returns (page: Page)
    requires limit.None? || limit.value >= 0
    requires CursorOk(Ordered(db.tweets, ProfileFilter(userId), db.follows), cursor)
    ensures page == PageOf(Ordered(db.tweets, ProfileFilter(userId), db.follows),
                           db.likes, session, limit.GetOr(DefaultLimit), cursor)
  {
    page := GetInfiniteTweets(db, ProfileFilter(userId), session, limit.GetOr(DefaultLimit), cursor);
  }

  // ---------------------------------------------------------------------
  // Mutations.
  // ---------------------------------------------------------------------

  /**
   * `create`: store a tweet with the given content authored by the caller. The
   * store supplies the new id and the creation time.
   */
  method Create(db: Store, session: Option<UserId>, content: string,
                newId: TweetId, now: int) returns (r: Result<Tweet, RouterError>)
    requires db.Valid()
    requires forall t :: t in db.tweets ==> t.id != newId
    modifies db
    ensures db.Valid()
    ensures session.None? ==> r == Err(Unauthorized) && unchanged(db)
    ensures session.Some? ==>
      && r == Ok(Tweet(newId, content, now, session.value))
      && db.tweets == old(db.tweets) + [r.value]
      && db.likes == old(db.likes) && db.follows == old(db.follows)
  {
    if session.None? {
      return Err(Unauthorized);
    }
    var tweet := Tweet(newId, content, now, session.value);
    db.tweets := db.tweets + [tweet];
    r := Ok(tweet);
  }

  /**
   * `toggleLike`: look the caller's like of the tweet up, then create it when
   * absent or delete it when present, and report which way it went.
   */
  method ToggleLike(db: Store, session: Option<UserId>, tweetId: TweetId)
      returns (r: Result<bool, RouterError>)
    requires db.Valid()
    modifies db
    ensures db.Valid()
    ensures session.None? ==> r == Err(Unauthorized) && unchanged(db)
    ensures session.Some? ==>
      var data := Like(session.value, tweetId);
      && r == Ok(data !in old(db.likes))
      && db.likes == Toggled(old(db.likes), data)
      && db.tweets == old(db.tweets) && db.follows == old(db.follows)
  {
    if session.None? {
      return Err(Unauthorized);
    }
    var data := Like(session.value, tweetId);
    var existingLike := data in db.likes;
    if !existingLike {
      db.likes := db.likes + {data};
      r := Ok(true);
    } else {
      db.likes := db.likes - {data};
      r := Ok(false);
    }
  }

  /**
   * Two toggles of the same tweet by the same user, in sequence, report an
   * addition and a removal in some order and leave the like set, the caller's
   * `likedByMe` and every `likeCount` as they were.
   */
  method ToggleTwice(db: Store, user: UserId, tweetId: TweetId)
      returns (first: Result<bool, RouterError>, second: Result<bool, RouterError>)
    requires db.Valid()
    modifies db
    ensures db.Valid()
    ensures first.Ok? && second.Ok? && first.value != second.value
    ensures db.likes == old(db.likes) && db.tweets == old(db.tweets) && db.follows == old(db.follows)
  {
    first := ToggleLike(db, Some(user), tweetId);
    second := ToggleLike(db, Some(user), tweetId);
    ToggleInvolution(old(db.likes), Like(user, tweetId));
  }

  /**
   * A tweet created with a creation time later than a cursor's does not
   * disturb the page that cursor names.
   */
  lemma CreatedLaterKeepsPage(tweets: seq<Tweet>, t: Tweet, follows: set<Follow>, where: Filter,
                              likes: set<Like>, caller: Option<UserId>, limit: nat, c: Cursor)
    requires UniqueIds(tweets) && (forall u :: u in tweets ==> u.id != t.id)
    requires HasKey(Ordered(tweets, where, follows), c)
    requires t.createdAt > c.createdAt
    ensures HasKey(Ordered(tweets + [t], where, follows), c)
    ensures PageOf(Ordered(tweets + [t], where, follows), likes, caller, limit, Some(c))
         == PageOf(Ordered(tweets, where, follows), likes, caller, limit, Some(c))
  {
    var all := tweets + [t];
    forall i, j | 0 <= i < j < |all| ensures all[i].id != all[j].id {
      if j == |tweets| {
        assert all[i] in tweets;
      } else {
        assert all[i] == tweets[i] && all[j] == tweets[j];
      }
    }
    NewerTweetKeepsPage(tweets, t, follows, where, likes, caller, limit, c);
  }
}
