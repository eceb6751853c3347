/**
 * The feed query of the tweet router: which tweets a filter admits, the order
 * the store returns them in, the inclusive compound cursor, the `limit + 1`
 * fetch with its extra row turned into `nextCursor`, and the mapping of rows
 * to tweet views. `PageOf` is the page a call of `getInfiniteTweets` returns;
 * `Crawl` follows `nextCursor` page after page.
 */
module FeedQuery {
  import opened Wrappers
  import opened Entities
  import opened Likes

  /** The `where` clause of the query, as a tagged variant. */
  datatype Filter = All | ByUser(userId: UserId) | FollowingOnly(callerId: UserId)

  /** One element of the returned `tweets` (the author's name and image are left out). */
  datatype TweetView = TweetView(
    id: TweetId, content: string, createdAt: int,
    likeCount: nat, likedByMe: bool, userId: UserId)

  /** The result of one feed query. */
  datatype Page = Page(tweets: seq<TweetView>, nextCursor: Option<Cursor>)

  function KeyOfView(v: TweetView): Cursor
  {
    Cursor(v.id, v.createdAt)
  }

  function Min(a: int, b: int): int
  {
    if a <= b then a else b
  }

  // ---------------------------------------------------------------------
  // The store query: filter, order, cursor, take.
  // ---------------------------------------------------------------------

  /** Whether `where` admits `t`; `FollowingOnly(c)` admits tweets whose author has `c` among their followers. */
  predicate Matches(t: Tweet, where: Filter, follows: set<Follow>): (b: bool)
    ensures where.FollowingOnly? ==>
      (b <==> exists f :: f in follows && f.followerId == where.callerId && f.followingId == t.userId)
  {
    match where
    case All => true
    case ByUser(u) => t.userId == u
    case FollowingOnly(c) => Follow(c, t.userId) in follows
  }

  /** The stored rows `where` admits, in store order. */
  function Select(s: seq<Tweet>, where: Filter, follows: set<Follow>): (r: seq<Tweet>)
    ensures |r| <= |s|
    ensures forall t :: t in r <==> t in s && Matches(t, where, follows)
  {
    if s == [] then []
    else
      var n := |s| - 1;
      assert s == s[..n] + [s[n]];
      Select(s[..n], where, follows) + (if Matches(s[n], where, follows) then [s[n]] else [])
  }

  lemma {:induction false} SelectUnique(s: seq<Tweet>, where: Filter, follows: set<Follow>)
    requires UniqueIds(s)
    ensures UniqueIds(Select(s, where, follows))
  {
    if s != [] {
      var n := |s| - 1;
      assert UniqueIds(s[..n]);
      SelectUnique(s[..n], where, follows);
      var p := Select(s[..n], where, follows);
      forall i | 0 <= i < |p| ensures p[i].id != s[n].id {
        assert p[i] in s[..n];
        var k :| 0 <= k < n && s[..n][k] == p[i];
        assert s[k] == p[i];
      }
    }
  }

  /** The rows the query sees: those `where` admits, ordered by (createdAt desc, id desc). */
  function Ordered(tweets: seq<Tweet>, where: Filter, follows: set<Follow>): (L: seq<Tweet>)
    ensures |L| <= |tweets|
  {
    Sort(Select(tweets, where, follows))
  }

  /**
   * The ordering holds exactly the admitted stored tweets, strictly descending,
   * with unique ids.
   */
  lemma OrderedSpec(tweets: seq<Tweet>, where: Filter, follows: set<Follow>)
    requires UniqueIds(tweets)
    ensures var L := Ordered(tweets, where, follows);
      && SortedDesc(L) && UniqueIds(L)
      && forall t :: t in L <==> t in tweets && Matches(t, where, follows)
  {
    var sel := Select(tweets, where, follows);
    SelectUnique(tweets, where, follows);
    SortSpec(sel);
    var L := Sort(sel);
    forall t ensures t in L <==> t in sel {
      assert t in L <==> t in multiset(L);
    }
    forall i, j | 0 <= i < j < |L| ensures L[i].id != L[j].id {
      BeforeIrreflexive(KeyOf(L[i]));
      assert KeyOf(L[i]) != KeyOf(L[j]);
      assert L[i] in multiset(sel) && L[j] in multiset(sel);
      UniqueMembers(sel, L[i], L[j]);
    }
  }

  /** The inclusive cursor names a row of the ordering. */
  ghost predicate HasKey(L: seq<Tweet>, c: Cursor)
  {
    exists i :: 0 <= i < |L| && KeyOf(L[i]) == c
  }

  ghost predicate CursorOk(L: seq<Tweet>, cursor: Option<Cursor>)
  {
    cursor.None? || HasKey(L, cursor.value)
  }

  lemma HasKeyTail(L: seq<Tweet>, c: Cursor)
    requires |L| > 0 && HasKey(L, c) && KeyOf(L[0]) != c
    ensures HasKey(L[1..], c)
  {
    var i :| 0 <= i < |L| && KeyOf(L[i]) == c;
    assert KeyOf(L[1..][i - 1]) == c;
  }

  /** The first row whose key is the cursor. */
  function PositionOf(L: seq<Tweet>, c: Cursor): (i: nat)
    requires HasKey(L, c)
    ensures i < |L| && KeyOf(L[i]) == c
    ensures forall j :: 0 <= j < i ==> KeyOf(L[j]) != c
  {
    if KeyOf(L[0]) == c then 0
    else
      HasKeyTail(L, c);
      1 + PositionOf(L[1..], c)
  }

  /** In a strictly descending ordering each key names exactly one row. */
  lemma PositionOfKey(L: seq<Tweet>, j: nat)
    requires SortedDesc(L) && j < |L|
    ensures HasKey(L, KeyOf(L[j])) && PositionOf(L, KeyOf(L[j])) == j
  {
    var i := PositionOf(L, KeyOf(L[j]));
    if i < j {
      BeforeIrreflexive(KeyOf(L[j]));
    }
  }

  /** Where the query starts: the cursor row itself (inclusive), or the first row. */
  function StartOf(L: seq<Tweet>, cursor: Option<Cursor>): (s: nat)
    requires CursorOk(L, cursor)
    ensures s <= |L|
    ensures cursor.None? ==> s == 0
    ensures cursor.Some? ==> s < |L| && KeyOf(L[s]) == cursor.value
  {
    match cursor
    case None => 0
    case Some(c) => PositionOf(L, c)
  }

  /**
   * `prisma.tweet.findMany({take, cursor, orderBy, where})`: up to `take` rows of
   * the ordering, starting at the cursor row.
   */
  function FindMany(tweets: seq<Tweet>, follows: set<Follow>, where: Filter,
                    cursor: Option<Cursor>, take: nat): (rows: seq<Tweet>)
    requires CursorOk(Ordered(tweets, where, follows), cursor)
    ensures var L := Ordered(tweets, where, follows); var s := StartOf(L, cursor);
      && |rows| == Min(take, |L| - s)
      && forall i :: 0 <= i < |rows| ==> rows[i] == L[s + i]
  {
    var L := Ordered(tweets, where, follows);
    var s := StartOf(L, cursor);
    L[s..s + Min(take, |L| - s)]
  }

  // ---------------------------------------------------------------------
  // Mapping rows to views.
  // ---------------------------------------------------------------------

  /** The `likes` selection: absent for an anonymous caller, else the caller's likes of the tweet. */
  function MyLikes(likes: set<Like>, caller: Option<UserId>, tweetId: TweetId): (r: Option<set<Like>>)
    ensures r.Some? <==> caller.Some?
    ensures r.Some? ==> forall l :: l in r.value <==> l in likes && l == Like(caller.value, tweetId)
  {
    match caller
    case None => None
    case Some(u) => Some(set l | l in likes && l.tweetId == tweetId && l.userId == u)
  }

  lemma MyLikesMeaning(likes: set<Like>, caller: Option<UserId>, tweetId: TweetId)
    ensures var mine := MyLikes(likes, caller, tweetId);
      && (mine.Some? <==> caller.Some?)
      && (mine.Some? ==> mine.value <= LikesOf(likes, tweetId))
      && (mine.Some? ==> (|mine.value| > 0 <==> Like(caller.value, tweetId) in likes))
  {
    if caller.Some? {
      MyLikesNonEmpty(likes, caller.value, tweetId);
    }
  }

  lemma MyLikesNonEmpty(likes: set<Like>, u: UserId, tweetId: TweetId)
    ensures var mine := MyLikes(likes, Some(u), tweetId).value;
      && mine <= LikesOf(likes, tweetId)
      && (|mine| > 0 <==> Like(u, tweetId) in likes)
  {
    var mine := MyLikes(likes, Some(u), tweetId).value;
    if Like(u, tweetId) in likes {
      assert Like(u, tweetId) in mine;
    } else {
      assert forall l :: l in mine ==> l == Like(u, tweetId);
      assert mine == {};
    }
  }

  /**
   * One view: the row's fields, `likeCount` the number of like rows of the
   * tweet, and `likedByMe` true exactly when the caller is signed in and has
   * liked it, so never for an anonymous caller.
   */
  function ViewOf(t: Tweet, likes: set<Like>, caller: Option<UserId>): (v: TweetView)
    ensures KeyOfView(v) == KeyOf(t) && v.content == t.content && v.userId == t.userId
    ensures v.likeCount == LikeCount(likes, t.id)
    ensures v.likedByMe <==> caller.Some? && Like(caller.value, t.id) in likes
    ensures v.likedByMe ==> v.likeCount > 0
  {
    var mine := MyLikes(likes, caller, t.id);
    MyLikesMeaning(likes, caller, t.id);
    TweetView(t.id, t.content, t.createdAt, LikeCount(likes, t.id),
              mine.Some? && |mine.value| > 0, t.userId)
  }

  /** `data.map(...)`: one view per row. */
  function Enrich(rows: seq<Tweet>, likes: set<Like>, caller: Option<UserId>): (r: seq<TweetView>)
    ensures |r| == |rows|
  {
    seq(|rows|, i requires 0 <= i < |rows| => ViewOf(rows[i], likes, caller))
  }

  /**
   * The mapping neither reorders nor drops rows: view `i` carries the key of
   * row `i`, and its counters are those of that row's tweet.
   */
  lemma EnrichSpec(rows: seq<Tweet>, likes: set<Like>, caller: Option<UserId>)
    ensures var r := Enrich(rows, likes, caller);
      forall i :: 0 <= i < |rows| ==>
        && KeyOfView(r[i]) == KeyOf(rows[i]) && r[i].content == rows[i].content
        && r[i].likeCount == LikeCount(likes, rows[i].id)
        && (r[i].likedByMe <==> caller.Some? && Like(caller.value, rows[i].id) in likes)
  {
  }

  lemma EnrichAppend(a: seq<Tweet>, b: seq<Tweet>, likes: set<Like>, caller: Option<UserId>)
    ensures Enrich(a + b, likes, caller) == Enrich(a, likes, caller) + Enrich(b, likes, caller)
  {
    var l, r := Enrich(a + b, likes, caller), Enrich(a, likes, caller) + Enrich(b, likes, caller);
    forall i | 0 <= i < |l| ensures l[i] == r[i] {
      if i >= |a| {
        assert (a + b)[i] == b[i - |a|];
      }
    }
  }

  // ---------------------------------------------------------------------
  // Pages.
  // ---------------------------------------------------------------------

  /**
   * The page over the rows that remain from the cursor on: the first `limit`
   * of them, and, when a further row exists, that row's key as `nextCursor`.
   */
  function PageFrom(rest: seq<Tweet>, likes: set<Like>, caller: Option<UserId>, limit: nat): (p: Page)
    ensures |p.tweets| == Min(limit, |rest|)
    ensures p.nextCursor.Some? <==> |rest| > limit
  {
    if |rest| > limit then Page(Enrich(rest[..limit], likes, caller), Some(KeyOf(rest[limit])))
    else Page(Enrich(rest, likes, caller), None)
  }

  /** The page for `cursor` over the ordering `L`. */
  function PageOf(L: seq<Tweet>, likes: set<Like>, caller: Option<UserId>,
                  limit: nat, cursor: Option<Cursor>): (p: Page)
    requires CursorOk(L, cursor)
    ensures |p.tweets| <= limit
  {
    PageFrom(L[StartOf(L, cursor)..], likes, caller, limit)
  }

  /**
   * Fetching `limit + 1` rows from `s` and popping the last one when there are
   * more than `limit` leaves the first `limit` rows from `s` on, and the popped
   * row is the one right after them.
   */
  lemma FetchAndPop(L: seq<Tweet>, s: nat, limit: nat, data: seq<Tweet>)
    requires s <= |L| && |data| == Min(limit + 1, |L| - s)
    requires forall i :: 0 <= i < |data| ==> data[i] == L[s + i]
    ensures |data| > limit ==>
      data[..|data| - 1] == L[s..][..limit] && data[|data| - 1] == L[s..][limit]
    ensures |data| <= limit ==> data == L[s..]
  {
  }

  /** The rows a page shows: up to `limit` of them from the cursor row on. */
  lemma PageRows(L: seq<Tweet>, likes: set<Like>, caller: Option<UserId>,
                 limit: nat, cursor: Option<Cursor>)
    requires CursorOk(L, cursor)
    ensures var p, s := PageOf(L, likes, caller, limit, cursor), StartOf(L, cursor);
      && p.tweets == Enrich(L[s..s + Min(limit, |L| - s)], likes, caller)
      && (p.nextCursor.Some? <==> |L| - s > limit)
      && (p.nextCursor.Some? ==> p.nextCursor.value == KeyOf(L[s + limit]))
  {
    var s := StartOf(L, cursor);
    if |L| - s > limit {
      assert L[s..][..limit] == L[s..s + limit];
      assert L[s..][limit] == L[s + limit];
    } else {
      assert L[s..] == L[s..s + (|L| - s)];
    }
  }

  /** Views of strictly descending rows with unique ids are strictly descending and miss any later row. */
  lemma EnrichDescending(L: seq<Tweet>, s: nat, n: nat, likes: set<Like>, caller: Option<UserId>)
    requires SortedDesc(L) && UniqueIds(L) && s + n <= |L|
    ensures var r := Enrich(L[s..s + n], likes, caller);
      && (forall i :: 0 <= i < |r| ==> KeyOfView(r[i]) == KeyOf(L[s + i]))
      && (forall i, j :: 0 <= i < j < |r| ==> Before(KeyOfView(r[i]), KeyOfView(r[j])))
      && (s + n < |L| ==> forall v :: v in r ==> v.id != L[s + n].id)
  {
    var rows := L[s..s + n];
    var r := Enrich(rows, likes, caller);
    forall i | 0 <= i < |r| ensures KeyOfView(r[i]) == KeyOf(L[s + i]) {
      assert r[i] == ViewOf(rows[i], likes, caller);
      assert rows[i] == L[s + i];
    }
    forall i, j | 0 <= i < j < |r| ensures Before(KeyOfView(r[i]), KeyOfView(r[j])) {
      assert KeyOfView(r[i]) == KeyOf(L[s + i]) && KeyOfView(r[j]) == KeyOf(L[s + j]);
    }
    if s + n < |L| {
      forall v | v in r ensures v.id != L[s + n].id {
        var i :| 0 <= i < |r| && r[i] == v;
        assert KeyOfView(v) == KeyOf(L[s + i]);
      }
    }
  }

  /**
   * A page holds at most `limit` views; `nextCursor` is present exactly when more
   * than `limit` rows remain from the cursor on, and then names the
   * (limit+1)-th of them, which the page does not hold; the views are the rows
   * from the cursor on, in order, strictly descending.
   */
  lemma PageContract(L: seq<Tweet>, likes: set<Like>, caller: Option<UserId>,
                     limit: nat, cursor: Option<Cursor>)
    requires SortedDesc(L) && UniqueIds(L) && CursorOk(L, cursor)
    ensures var p, s := PageOf(L, likes, caller, limit, cursor), StartOf(L, cursor);
      && |p.tweets| <= limit
      && (p.nextCursor.Some? <==> |L| - s > limit)
      && (p.nextCursor.Some? ==>
            p.nextCursor.value == KeyOf(L[s + limit])
            && forall v :: v in p.tweets ==> v.id != p.nextCursor.value.id)
      && (forall i :: 0 <= i < |p.tweets| ==> KeyOfView(p.tweets[i]) == KeyOf(L[s + i]))
      && (forall i, j :: 0 <= i < j < |p.tweets| ==>
            Before(KeyOfView(p.tweets[i]), KeyOfView(p.tweets[j])))
  {
    var s := StartOf(L, cursor);
    PageRows(L, likes, caller, limit, cursor);
    EnrichDescending(L, s, Min(limit, |L| - s), likes, caller);
  }

  /**
   * With the inclusive cursor, the next query starts exactly at the first row
   * not returned: `limit` rows after the current start. (With `limit == 0`
   * this is the current start itself, so the feed makes no progress.)
   */
  lemma NextCursorResumes(L: seq<Tweet>, likes: set<Like>, caller: Option<UserId>,
                          limit: nat, cursor: Option<Cursor>)
    requires SortedDesc(L) && CursorOk(L, cursor)
    ensures var p := PageOf(L, likes, caller, limit, cursor);
      p.nextCursor.Some? ==>
        CursorOk(L, p.nextCursor) && StartOf(L, p.nextCursor) == StartOf(L, cursor) + limit
  {
    var s := StartOf(L, cursor);
    if |L| - s > limit {
      assert L[s..][limit] == L[s + limit];
      PositionOfKey(L, s + limit);
    }
  }

  /**
   * A limit of 0 is accepted by the input schema, yet such a page is empty and
   * its `nextCursor` names the cursor row itself: following it asks for the
   * same page again, so an infinite-scroll client never advances.
   */
  lemma ZeroLimitStalls(L: seq<Tweet>, likes: set<Like>, caller: Option<UserId>, cursor: Option<Cursor>)
    requires SortedDesc(L) && CursorOk(L, cursor) && StartOf(L, cursor) < |L|
    ensures var p, s := PageOf(L, likes, caller, 0, cursor), StartOf(L, cursor);
      && p.tweets == [] && p.nextCursor == Some(KeyOf(L[s]))
      && StartOf(L, p.nextCursor) == s
      && PageOf(L, likes, caller, 0, p.nextCursor) == p
  {
    var s := StartOf(L, cursor);
    NextCursorResumes(L, likes, caller, 0, cursor);
    assert L[s..][0] == L[s];
  }

  /** With a positive limit, a page that has a `nextCursor` is full and the next query starts further on. */
  lemma PositiveLimitAdvances(L: seq<Tweet>, likes: set<Like>, caller: Option<UserId>,
                              limit: nat, cursor: Option<Cursor>)
    requires SortedDesc(L) && CursorOk(L, cursor) && limit > 0
    ensures var p := PageOf(L, likes, caller, limit, cursor);
      p.nextCursor.Some? ==>
        |p.tweets| == limit && StartOf(L, p.nextCursor) > StartOf(L, cursor)
  {
    NextCursorResumes(L, likes, caller, limit, cursor);
  }

  /** A stored tweet appended to the store is inserted into the ordering when the filter admits it. */
  lemma OrderedAppend(tweets: seq<Tweet>, t: Tweet, where: Filter, follows: set<Follow>)
    ensures Ordered(tweets + [t], where, follows)
         == if Matches(t, where, follows) then Insert(t, Ordered(tweets, where, follows))
            else Ordered(tweets, where, follows)
  {
    assert (tweets + [t])[..|tweets|] == tweets;
    var sel := Select(tweets, where, follows);
    if Matches(t, where, follows) {
      assert Select(tweets + [t], where, follows) == sel + [t];
      assert (sel + [t])[..|sel|] == sel;
    } else {
      assert Select(tweets + [t], where, follows) == sel;
    }
  }

  /**
   * Inserting a tweet that comes before the cursor row (a newer tweet) leaves
   * the page for that cursor unchanged: issued cursors stay stable.
   */
  lemma NewerTweetKeepsPage(tweets: seq<Tweet>, t: Tweet, follows: set<Follow>, where: Filter,
                            likes: set<Like>, caller: Option<UserId>, limit: nat, c: Cursor)
    requires UniqueIds(tweets + [t])
    requires HasKey(Ordered(tweets, where, follows), c)
    requires Before(KeyOf(t), c)
    ensures HasKey(Ordered(tweets + [t], where, follows), c)
    ensures PageOf(Ordered(tweets + [t], where, follows), likes, caller, limit, Some(c))
         == PageOf(Ordered(tweets, where, follows), likes, caller, limit, Some(c))
  {
    OrderedAppend(tweets, t, where, follows);
    if Matches(t, where, follows) {
      OrderedSpec(tweets + [t], where, follows);
      InsertKeepsPage(Ordered(tweets, where, follows), t, likes, caller, limit, c);
    }
  }

  /** Inserting a row that sorts before the cursor row into a strictly descending ordering keeps that cursor's page. */
  lemma InsertKeepsPage(L: seq<Tweet>, t: Tweet, likes: set<Like>, caller: Option<UserId>, limit: nat, c: Cursor)
    requires SortedDesc(Insert(t, L)) && HasKey(L, c) && Before(KeyOf(t), c)
    ensures HasKey(Insert(t, L), c)
    ensures PageOf(Insert(t, L), likes, caller, limit, Some(c)) == PageOf(L, likes, caller, limit, Some(c))
  {
    var L' := Insert(t, L);
    var s := PositionOf(L, c);
    InsertShiftsSuffix(t, L, s);
    assert L'[s + 1] == L'[s + 1..][0] == L[s..][0] == L[s];
    PositionOfKey(L', s + 1);
    assert StartOf(L', Some(c)) == s + 1 && StartOf(L, Some(c)) == s;
  }

  // ---------------------------------------------------------------------
  // Following nextCursor page after page.
  // ---------------------------------------------------------------------

  /** The views a client collects by following `nextCursor` from `cursor` until it is absent. */
  ghost function Crawl(L: seq<Tweet>, likes: set<Like>, caller: Option<UserId>,
                       limit: nat, cursor: Option<Cursor>): (r: seq<TweetView>)
    requires SortedDesc(L) && limit > 0 && CursorOk(L, cursor)
    ensures |r| == |L| - StartOf(L, cursor)
    decreases |L| - StartOf(L, cursor)
  {
    var p := PageOf(L, likes, caller, limit, cursor);
    if p.nextCursor.None? then p.tweets
    else
      NextCursorResumes(L, likes, caller, limit, cursor);
      p.tweets + Crawl(L, likes, caller, limit, p.nextCursor)
  }

  /** One step of a crawl: this page's rows, then the crawl from `nextCursor`. */
  lemma CrawlStep(L: seq<Tweet>, likes: set<Like>, caller: Option<UserId>,
                  limit: nat, cursor: Option<Cursor>)
    requires SortedDesc(L) && limit > 0 && CursorOk(L, cursor)
    requires PageOf(L, likes, caller, limit, cursor).nextCursor.Some?
    ensures var p, s := PageOf(L, likes, caller, limit, cursor), StartOf(L, cursor);
      && s + limit < |L|
      && CursorOk(L, p.nextCursor) && StartOf(L, p.nextCursor) == s + limit
      && Crawl(L, likes, caller, limit, cursor)
         == Enrich(L[s..][..limit], likes, caller) + Crawl(L, likes, caller, limit, p.nextCursor)
  {
    NextCursorResumes(L, likes, caller, limit, cursor);
  }

  /** The last page of a crawl is everything from the cursor on. */
  lemma CrawlLast(L: seq<Tweet>, likes: set<Like>, caller: Option<UserId>,
                  limit: nat, cursor: Option<Cursor>)
    requires SortedDesc(L) && limit > 0 && CursorOk(L, cursor)
    requires PageOf(L, likes, caller, limit, cursor).nextCursor.None?
    ensures Crawl(L, likes, caller, limit, cursor) == Enrich(L[StartOf(L, cursor)..], likes, caller)
  {
    assert Crawl(L, likes, caller, limit, cursor) == PageOf(L, likes, caller, limit, cursor).tweets;
  }

  lemma EnrichSplit(L: seq<Tweet>, s: nat, limit: nat, likes: set<Like>, caller: Option<UserId>)
    requires s + limit <= |L|
    ensures Enrich(L[s..][..limit], likes, caller) + Enrich(L[s + limit..], likes, caller)
         == Enrich(L[s..], likes, caller)
  {
    var rest := L[s..];
    assert rest[limit..] == L[s + limit..];
    assert rest[..limit] + rest[limit..] == rest;
    EnrichAppend(rest[..limit], rest[limit..], likes, caller);
  }

  /** Crawling from a cursor yields every row from the cursor on, in order, once. */
  lemma {:induction false} CrawlFrom(L: seq<Tweet>, likes: set<Like>, caller: Option<UserId>,
                                     limit: nat, cursor: Option<Cursor>)
    requires SortedDesc(L) && limit > 0 && CursorOk(L, cursor)
    ensures Crawl(L, likes, caller, limit, cursor) == Enrich(L[StartOf(L, cursor)..], likes, caller)
    decreases |L| - StartOf(L, cursor)
  {
    var s := StartOf(L, cursor);
    var p := PageOf(L, likes, caller, limit, cursor);
    if p.nextCursor.Some? {
      CrawlStep(L, likes, caller, limit, cursor);
      CrawlFrom(L, likes, caller, limit, p.nextCursor);
      EnrichSplit(L, s, limit, likes, caller);
    } else {
      CrawlLast(L, likes, caller, limit, cursor);
    }
  }

  /**
   * Following `nextCursor` from the first page over a static store returns the
   * whole ordering: every admitted tweet exactly once, strictly descending,
   * with no duplicate ids.
   */
  lemma CrawlComplete(tweets: seq<Tweet>, follows: set<Follow>, where: Filter,
                      likes: set<Like>, caller: Option<UserId>, limit: nat)
    requires UniqueIds(tweets) && limit > 0
    ensures var L := Ordered(tweets, where, follows);
      SortedDesc(L) &&
      var r := Crawl(L, likes, caller, limit, None);
      && |r| == |L|
      && (forall i :: 0 <= i < |r| ==> KeyOfView(r[i]) == KeyOf(L[i]))
      && (forall t :: t in L <==> t in tweets && Matches(t, where, follows))
      && (forall i, j :: 0 <= i < j < |r| ==> r[i].id != r[j].id && Before(KeyOfView(r[i]), KeyOfView(r[j])))
  {
    var L := Ordered(tweets, where, follows);
    OrderedSpec(tweets, where, follows);
    CrawlFrom(L, likes, caller, limit, None);
    assert L[0..] == L;
    var r := Crawl(L, likes, caller, limit, None);
    EnrichSpec(L, likes, caller);
    forall i, j | 0 <= i < j < |r|
      ensures r[i].id != r[j].id && Before(KeyOfView(r[i]), KeyOfView(r[j]))
    {
      assert KeyOfView(r[i]) == KeyOf(L[i]) && KeyOfView(r[j]) == KeyOf(L[j]);
    }
  }

  /** The last page of a crawl is the one without `nextCursor`: a page with one is never last. */
  lemma CrawlEndsWithoutCursor(L: seq<Tweet>, likes: set<Like>, caller: Option<UserId>,
                               limit: nat, cursor: Option<Cursor>)
    requires SortedDesc(L) && limit > 0 && CursorOk(L, cursor)
    ensures var p := PageOf(L, likes, caller, limit, cursor);
      p.nextCursor.None? <==> Crawl(L, likes, caller, limit, cursor) == p.tweets
  {
    var p := PageOf(L, likes, caller, limit, cursor);
    if p.nextCursor.Some? {
      var s := StartOf(L, cursor);
      CrawlStep(L, likes, caller, limit, cursor);
      CrawlFrom(L, likes, caller, limit, p.nextCursor);
      assert |Crawl(L, likes, caller, limit, p.nextCursor)| == |L| - (s + limit) > 0;
    }
  }
}
