# Tweet router of a Twitter-like feed application, modelled in Dafny

This project models the tweet router of a small social-feed application. Users post tweets, like them and read paginated feeds. The feeds are the global feed, the "following only" feed and a per-profile feed.

The router has three parts, and the model covers all three:

- **Feed queries.** `infiniteFeed` and `infiniteProfileFeed` choose a filter and hand it to `getInfiniteTweets`. The filter is all tweets, the tweets of one user, or the tweets whose author the caller follows.
  - `getInfiniteTweets` asks the store for `limit + 1` rows.
  - The rows are ordered by `(createdAt desc, id desc)` and start at an optional compound cursor `{id, createdAt}`.
  - When more than `limit` rows come back, the last row is popped and its key becomes `nextCursor`.
  - Each remaining row is mapped to a view that carries `likeCount` and `likedByMe`.
- **`toggleLike`.** It looks up the caller's like of a tweet, then deletes it when present or creates it when absent. It reports `addedLike`.
- **`create`.** It stores a new tweet with the given content, authored by the caller.

The store is the application's relational database. It is modelled in memory as a class `TweetRouter.Store` with three fields:

- `tweets`: a sequence of tweets, each with an id, content, an integer `createdAt` and a `userId`;
- `likes`: a set of `(userId, tweetId)` pairs;
- `follows`: a set of follow edges.

The store's query (`findMany` with `take`, `cursor`, `orderBy` and `where`) is the function `FeedQuery.FindMany`. It filters the rows (`Select`), sorts them (`Ordered`, an insertion sort in the store order) and starts at the cursor row. The cursor row is included, because the query passes no `skip`. It then takes `take` rows.

`FeedQuery.PageOf` is the page a query returns, stated over the ordered rows. `GetInfiniteTweets` computes it the way the router does: fetch `limit + 1` rows, then pop.

`FeedQuery.Crawl` is what a client gets by following `nextCursor` page after page. `CrawlComplete` proves that, over a static store, the crawl returns every tweet the filter admits. Each tweet appears exactly once, in strictly descending order. The last page is the one without `nextCursor`.

Modules, one per file:
- `Wrappers` (`wrappers.dfy`)
- `Entities` (`entities.dfy`): the records, the key order and the sort
- `Likes` (`likes.dfy`): the like set, its toggle and its counts
- `FeedQuery` (`feed.dfy`): filter, order, cursor, page and crawl
- `TweetRouter` (`router.dfy`): the store and the router's procedures

Cursor semantics follow the code:
- The query does not start strictly after the cursor. The code passes the cursor to the store without `skip`, so the cursor row is returned first. `nextCursor` names the row that was popped and never shown. So the inclusive cursor resumes exactly at the first unseen row (`NextCursorResumes`), and `nextCursor` is present exactly when more than `limit` rows remain counting from the cursor row itself.

## Model

| member | source | states |
|---|---|---|
| Entities.SortSpec | src/server/api/routers/tweet.ts:110 | sorting a result set with unique ids keeps the same rows and orders them strictly by createdAt descending, then id descending |
| Entities.BeforeTotal | src/server/api/routers/tweet.ts:110 | the order `(createdAt desc, id desc)` is total: two different keys are always ordered one way or the other |
| Entities.BeforeTransitive | src/server/api/routers/tweet.ts:110 | the store order is transitive |
| Entities.BeforeIrreflexive | src/server/api/routers/tweet.ts:110 | no key comes before itself, so a strictly descending ordering never repeats a key |
| Entities.Insert | src/server/api/routers/tweet.ts:110 | inserting a row into a sorted result set makes it one row longer |
| Entities.InsertMultiset | src/server/api/routers/tweet.ts:110 | inserting a row adds exactly that row: the multiset of rows grows by it and nothing else changes |
| Entities.Sort | src/server/api/routers/tweet.ts:110 | the store's ordering of a result set has as many rows as the set (permutation and order are stated by `SortSpec`) |
| Entities.InsertShiftsSuffix | src/server/api/routers/tweet.ts:110 | a row that sorts before the row at position s lands at or before s, so every row from s on moves down by exactly one |
| Likes.Toggled | src/server/api/routers/tweet.ts:72-86 | one toggle of a pair flips whether that pair is in the like set, and no other pair changes |
| Likes.ToggleInvolution | src/server/api/routers/tweet.ts:72-86 | two toggles of the same pair restore the like set |
| Likes.ToggleTimesParity | src/server/api/routers/tweet.ts:72-86 | across repeated toggles of one pair, membership alternates; after an even number of toggles the like set is the original one |
| Likes.ToggleLikeCount | src/server/api/routers/tweet.ts:78-85 | a toggle of (u, t) raises tweet t's like count by one when it adds the like, lowers it by one when it removes it, and changes no other tweet's count |
| FeedQuery.Matches | src/server/api/routers/tweet.ts:43-47 | the following-only clause `user: { followers: { some: { id } } }` admits a tweet exactly when some follow edge runs from the caller to the tweet's author |
| FeedQuery.Select | src/server/api/routers/tweet.ts:111 | the filtered rows are exactly the stored tweets the `where` clause admits, and never more rows than the table holds |
| FeedQuery.Ordered | src/server/api/routers/tweet.ts:110-111 | the rows the query sees never outnumber the stored tweets (which rows, and in which order, is stated by `OrderedSpec`) |
| FeedQuery.OrderedSpec | src/server/api/routers/tweet.ts:107-111 | the rows the query sees are exactly the admitted stored tweets, strictly descending in the store order, with unique ids |
| FeedQuery.PositionOf | src/server/api/routers/tweet.ts:109 | the position of the cursor is the first row whose `{id, createdAt}` equals the cursor |
| FeedQuery.PositionOfKey | src/server/api/routers/tweet.ts:109 | in the store ordering each compound cursor names exactly one row, so a row's own key leads back to that row |
| FeedQuery.StartOf | src/server/api/routers/tweet.ts:109 | without a cursor the query starts at the first row; with one it starts at the row named by the cursor (inclusive) |
| FeedQuery.FindMany | src/server/api/routers/tweet.ts:107-122 | the fetch returns min(take, number of rows from the cursor on) rows, which are the consecutive rows of the ordering starting at the cursor |
| FeedQuery.MyLikes | src/server/api/routers/tweet.ts:117 | the `likes` selection is absent exactly for an anonymous caller; for a signed-in caller it holds exactly the caller's like of this tweet, if there is one |
| FeedQuery.MyLikesNonEmpty | src/server/api/routers/tweet.ts:117 | the caller's selected likes are among the tweet's likes, and they are non-empty exactly when the caller has liked the tweet |
| Likes.LikeCount | src/server/api/routers/tweet.ts:116 | `_count.likes` is positive for any tweet that some user has liked |
| FeedQuery.ViewOf | src/server/api/routers/tweet.ts:116-117 | a view keeps the row's id, createdAt, content and author. `likeCount` is the number of like rows for the tweet. `likedByMe` holds exactly when the caller is signed in and has liked the tweet, so it is false for an anonymous caller. A liked tweet has a positive count |
| FeedQuery.Enrich | src/server/api/routers/tweet.ts:134-143 | the mapping yields one view per fetched row |
| FeedQuery.EnrichSpec | src/server/api/routers/tweet.ts:134-143 | view i carries row i's key, content, like count and likedByMe, so the mapping neither reorders nor drops rows |
| FeedQuery.PageFrom | src/server/api/routers/tweet.ts:124-143 | over the rows remaining from the cursor, a page shows min(limit, remaining) of them and has a `nextCursor` exactly when more than `limit` remain |
| FeedQuery.PageOf | src/server/api/routers/tweet.ts:124-143 | a page never holds more than `limit` views (its cursor and rows are stated by `PageRows`, `PageContract` and `NextCursorResumes`) |
| FeedQuery.FetchAndPop | src/server/api/routers/tweet.ts:107-131 | after fetching `limit + 1` rows from the cursor, popping the last one when there are more than `limit` leaves the first `limit` rows, and the popped row is the one right after them; otherwise the fetch already holds every remaining row |
| FeedQuery.PageRows | src/server/api/routers/tweet.ts:124-143 | a page shows the rows from the cursor on, up to `limit` of them. `nextCursor` is present exactly when more than `limit` rows remain, and then it is the key of the (limit+1)-th row |
| FeedQuery.PageContract | src/server/api/routers/tweet.ts:108-143 | a page never holds more than `limit` views. `nextCursor` is present iff more than `limit` rows remain from the cursor on. When present it names the (limit+1)-th such row, and no view on the page has that row's id. The page keeps the store order, strictly descending |
| FeedQuery.NextCursorResumes | src/server/api/routers/tweet.ts:109 | with the inclusive cursor, the query for `nextCursor` starts exactly `limit` rows after the current start, that is, at the first row not yet returned |
| FeedQuery.OrderedAppend | src/server/api/routers/tweet.ts:107-111 | a newly appended tweet enters the ordering by insertion when the filter admits it; otherwise the ordering is unchanged |
| FeedQuery.NewerTweetKeepsPage | src/server/api/routers/tweet.ts:107-110 | inserting a tweet that sorts before a cursor's row leaves the page for that cursor unchanged: already-issued cursors stay stable |
| FeedQuery.Crawl | src/server/api/routers/tweet.ts:124-143 | following `nextCursor` page after page, as the profile page's `getNextPageParam: lastPage.nextCursor` does (lines 18-21 of `src/pages/profiles/[id].tsx`), collects exactly one view per row from the cursor on |
| FeedQuery.ZeroLimitStalls | src/server/api/routers/tweet.ts:126-130 | with `limit` 0 a page is empty, its `nextCursor` names the cursor row itself, and the page for that `nextCursor` is the same page again |
| FeedQuery.PositiveLimitAdvances | src/server/api/routers/tweet.ts:126-130 | with a positive `limit`, a page that has a `nextCursor` is full and the next query starts strictly further on |
| FeedQuery.InsertKeepsPage | src/server/api/routers/tweet.ts:107-110 | inserting a row that sorts before a cursor's row into a strictly descending ordering keeps the cursor valid and its page unchanged |
| FeedQuery.CrawlStep | src/server/api/routers/tweet.ts:126-131 | a page with `nextCursor` is followed by the crawl from the first row it did not show |
| FeedQuery.CrawlLast | src/server/api/routers/tweet.ts:126-143 | a page without `nextCursor` holds every remaining row |
| FeedQuery.CrawlFrom | src/server/api/routers/tweet.ts:107-143 | following `nextCursor` from any cursor yields the views of every row from that cursor on, in order, with no gaps and no repeats |
| FeedQuery.CrawlComplete | src/server/api/routers/tweet.ts:107-143 | following `nextCursor` from the first page over a static store yields every admitted tweet exactly once, strictly descending, with no duplicate ids |
| FeedQuery.CrawlEndsWithoutCursor | src/server/api/routers/tweet.ts:124-131 | a page is the last page of the crawl exactly when it has no `nextCursor` |
| TweetRouter.Store.constructor | src/server/api/routers/tweet.ts:107 | a fresh store has no tweets, likes or follows, and satisfies the store invariant |
| TweetRouter.Store.Valid | src/server/api/routers/tweet.ts:58-63 | the store invariant: tweet ids are a primary key, so an id names at most one stored tweet |
| TweetRouter.FeedFilter | src/server/api/routers/tweet.ts:37-47 | the home feed admits every tweet when the caller is anonymous or `onlyFollowing` is false; otherwise it admits exactly the tweets whose author has the caller among their followers |
| TweetRouter.ProfileFilter | src/server/api/routers/tweet.ts:22 | the profile feed admits exactly the tweets whose `userId` is the requested user |
| TweetRouter.FeedSelects | src/server/api/routers/tweet.ts:36-47 | the home feed holds exactly the stored tweets chosen by the fallback-or-followed rule |
| TweetRouter.ProfileSelects | src/server/api/routers/tweet.ts:20-26 | the profile feed holds exactly the stored tweets of the requested user |
| TweetRouter.AnonymousFallsBack | src/server/api/routers/tweet.ts:41-42 | for an anonymous caller, asking for followed authors only gives the same feed as the unfiltered one |
| TweetRouter.GetInfiniteTweets | src/server/api/routers/tweet.ts:91-144 | fetching `limit + 1` rows, popping the extra row into `nextCursor` and mapping the rest gives exactly the page `PageOf` describes |
| TweetRouter.InfiniteFeed | src/server/api/routers/tweet.ts:30-52 | the home feed is the page of the chosen filter; `limit` defaults to 10 and `onlyFollowing` to false |
| TweetRouter.InfiniteProfileFeed | src/server/api/routers/tweet.ts:14-27 | the profile feed is the page of the user's tweets; `limit` defaults to 10 |
| TweetRouter.Create | src/server/api/routers/tweet.ts:55-66 | a signed-in caller's tweet is appended with the given content and the caller as author; likes, follows and existing tweets are unchanged; ids stay unique; without a session nothing changes and the call is rejected |
| TweetRouter.ToggleLike | src/server/api/routers/tweet.ts:69-87 | for a signed-in caller the pair (caller, tweet) is inserted when absent (`addedLike` true) and removed when present (`addedLike` false); no other pair, tweet or follow changes; the store invariant is kept; without a session nothing changes and the call is rejected |
| TweetRouter.ToggleTwice | src/server/api/routers/tweet.ts:72-86 | two toggles in sequence by one user on one tweet report opposite outcomes and leave the store as it was |
| TweetRouter.CreatedLaterKeepsPage | src/server/api/routers/tweet.ts:58-63 | a tweet created later than a cursor's timestamp leaves the page for that cursor unchanged |

## Left out

- Prisma, tRPC and zod plumbing. The model gives only the query and mutation semantics they provide. The UNAUTHORIZED rejection of a protected procedure appears as `Err(Unauthorized)`. The procedure builders in `src/server/api/trpc.ts` are not part of this model.
- Authentication and sessions are not modelled. A caller is an optional user id.
- Asynchrony and concurrency are left out. So is the race between the lookup and the create/delete in `toggleLike`, and the store's uniqueness-constraint errors. The model is sequential.
- Foreign-key and other store errors are left out. For example, the schema would refuse a like that names no stored tweet. The schema is not part of this model, so `ToggleLike` flips the pair whatever the tweet id.
- `Date` is modelled as an integer timestamp.
- Ids are compared lexicographically by character code. The database's collation for string ids is not part of this model.
- The author's `name` and `image` are not modelled. They are pass-through fields of the view.
- The follow toggle lives in a profile router that is not part of this model. The follower relation is a field of the store that no modelled operation changes.
- The profile page and side navigation components are not modelled. They are presentation code.
- TweetRouter.GetInfiniteTweets: requires `limit >= 0` and a cursor that names a row of the filtered ordering. The input schema also admits negative limits, which mean reverse pagination in the store, and non-integer limits. Both are outside the model. How the store answers a cursor that names no row is not modelled.
- TweetRouter.InfiniteFeed: has the same two requirements on `limit` and `cursor`, for the same reasons.
- TweetRouter.InfiniteProfileFeed: has the same two requirements on `limit` and `cursor`, for the same reasons.
- TweetRouter.Create: takes the new id and creation time as parameters, because the store generates them. It requires that id to be unused, which is the store's primary-key guarantee.
- FeedQuery.Crawl: requires `limit > 0`. The input schema admits `limit: 0`, and then the crawl would not end; see "## Findings".
- The order of rows inside the store's table is not modelled. The model keeps them in insertion order, and only the query's ordering is observable.

## Findings

| source | as written | input that shows it | evidently intended | confidence | as-written member | corrected member |
|---|---|---|---|---|---|---|
| src/server/api/routers/tweet.ts:126-130 | `limit` is any number (tweet.ts:17 and 33), so 0 is accepted. The query then takes 1 row, the row is popped, and `nextCursor` is that row's key, which is the incoming cursor itself | `infiniteFeed({limit: 0})` over a feed with at least one tweet: every page is empty and names the same cursor, so an infinite-scroll client asks for the same page forever | a positive limit: then each page with a `nextCursor` is full and the next query starts further on (`PositiveLimitAdvances`), and following `nextCursor` reaches the end | not executed; from reading the code | FeedQuery.ZeroLimitStalls | FeedQuery.CrawlComplete |
