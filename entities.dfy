/**
 * The stored entities of the tweet router and the order in which the store
 * returns tweets: createdAt descending, ties broken by id descending.
 */
module Entities {

  type UserId = string
  type TweetId = string

  /** A stored tweet; `createdAt` is an integer timestamp. */
  datatype Tweet = Tweet(id: TweetId, content: string, createdAt: int, userId: UserId)

  /** A like row, keyed by the pair (userId, tweetId). */
  datatype Like = Like(userId: UserId, tweetId: TweetId)

  /** A follow edge: `followerId` follows `followingId`. */
  datatype Follow = Follow(followerId: UserId, followingId: UserId)

  /** The compound cursor `{id, createdAt}`, which is also the sort key of a tweet. */
  datatype Cursor = Cursor(id: TweetId, createdAt: int)

  function KeyOf(t: Tweet): Cursor
  {
    Cursor(t.id, t.createdAt)
  }

  // ---------------------------------------------------------------------
  // Order on ids: lexicographic by character code.
  // ---------------------------------------------------------------------

  predicate IdLess(a: string, b: string)
    decreases |a|
  {
    if |a| == 0 then |b| > 0
    else |b| > 0 && (a[0] < b[0] || (a[0] == b[0] && IdLess(a[1..], b[1..])))
  }

  lemma {:induction false} IdLessIrreflexive(a: string)
    ensures !IdLess(a, a)
    decreases |a|
  {
    if |a| > 0 {
      IdLessIrreflexive(a[1..]);
    }
  }

  lemma {:induction false} IdLessTransitive(a: string, b: string, c: string)
    requires IdLess(a, b) && IdLess(b, c)
    ensures IdLess(a, c)
    decreases |a|
  {
    if |a| > 0 && a[0] == b[0] && b[0] == c[0] {
      IdLessTransitive(a[1..], b[1..], c[1..]);
    }
  }

  lemma {:induction false} IdLessTotal(a: string, b: string)
    ensures a == b || IdLess(a, b) || IdLess(b, a)
    decreases |a|
  {
    if |a| > 0 && |b| > 0 && a[0] == b[0] {
      IdLessTotal(a[1..], b[1..]);
      if a[1..] == b[1..] {
        assert a == [a[0]] + a[1..] && b == [b[0]] + b[1..];
      }
    }
  }

  // ---------------------------------------------------------------------
  // The store order: `Before(k1, k2)` when k1 comes first under
  // orderBy [{createdAt: "desc"}, {id: "desc"}].
  // ---------------------------------------------------------------------

  predicate Before(k1: Cursor, k2: Cursor)
  {
    k1.createdAt > k2.createdAt || (k1.createdAt == k2.createdAt && IdLess(k2.id, k1.id))
  }

  lemma BeforeIrreflexive(k: Cursor)
    ensures !Before(k, k)
  {
    IdLessIrreflexive(k.id);
  }

  lemma BeforeTransitive(k1: Cursor, k2: Cursor, k3: Cursor)
    requires Before(k1, k2) && Before(k2, k3)
    ensures Before(k1, k3)
  {
    if k1.createdAt == k2.createdAt && k2.createdAt == k3.createdAt {
      IdLessTransitive(k3.id, k2.id, k1.id);
    }
  }

  /** Two distinct keys are always ordered one way or the other: the order is total. */
  lemma BeforeTotal(k1: Cursor, k2: Cursor)
    ensures k1 == k2 || Before(k1, k2) || Before(k2, k1)
  {
    IdLessTotal(k1.id, k2.id);
  }

  /** Strictly descending in the store order. */
  ghost predicate SortedDesc(s: seq<Tweet>)
  {
    forall i, j :: 0 <= i < j < |s| ==> Before(KeyOf(s[i]), KeyOf(s[j]))
  }

  /** No two rows share an id (the store's primary key). */
  ghost predicate UniqueIds(s: seq<Tweet>)
  {
    forall i, j :: 0 <= i < j < |s| ==> s[i].id != s[j].id
  }

  // ---------------------------------------------------------------------
  // The store's ordering of a result set, as an insertion sort.
  // ---------------------------------------------------------------------

  /** Puts `t` in front of the first row it comes before. */
  function Insert(t: Tweet, s: seq<Tweet>): (r: seq<Tweet>)
    ensures |r| == |s| + 1
  {
    if s == [] then [t]
    else if Before(KeyOf(t), KeyOf(s[0])) then [t] + s
    else [s[0]] + Insert(t, s[1..])
  }

  /** Sorts the rows, the last one inserted last, so that `Sort(s + [t]) == Insert(t, Sort(s))`. */
  function Sort(s: seq<Tweet>): (r: seq<Tweet>)
    ensures |r| == |s|
  {
    if s == [] then [] else Insert(s[|s| - 1], Sort(s[..|s| - 1]))
  }

  /** Inserting a row adds exactly that row: the rows are `s`'s plus `t`. */
  lemma {:induction false} InsertMultiset(t: Tweet, s: seq<Tweet>)
    ensures multiset(Insert(t, s)) == multiset(s) + multiset{t}
  {
    if s != [] && !Before(KeyOf(t), KeyOf(s[0])) {
      InsertMultiset(t, s[1..]);
      assert s == [s[0]] + s[1..];
    }
  }

  /** In a table with unique ids, an id names at most one stored tweet. */
  lemma IdNamesOneTweet(s: seq<Tweet>)
    requires UniqueIds(s)
    ensures forall x, y :: x in s && y in s && x.id == y.id ==> x == y
  {
    forall x, y | x in s && y in s && x != y ensures x.id != y.id {
      UniqueMembers(s, x, y);
    }
  }

  /** Two rows of a result set with unique ids that share an id are the same row. */
  lemma UniqueMembers(s: seq<Tweet>, x: Tweet, y: Tweet)
    requires UniqueIds(s) && x in s && y in s && x != y
    ensures x.id != y.id
  {
    var a :| 0 <= a < |s| && s[a] == x;
    var b :| 0 <= b < |s| && s[b] == y;
    if a < b {
      assert s[a].id != s[b].id;
    } else {
      assert s[b].id != s[a].id;
    }
  }

  lemma {:induction false} InsertSorted(t: Tweet, s: seq<Tweet>)
    requires SortedDesc(s)
    requires forall x :: x in s ==> KeyOf(x) != KeyOf(t)
    ensures SortedDesc(Insert(t, s))
  {
    if s == [] {
    } else if Before(KeyOf(t), KeyOf(s[0])) {
      var r := [t] + s;
      forall i, j | 0 <= i < j < |r| ensures Before(KeyOf(r[i]), KeyOf(r[j])) {
        if i == 0 && j > 1 {
          BeforeTransitive(KeyOf(t), KeyOf(s[0]), KeyOf(s[j - 1]));
        }
      }
    } else {
      var tail := s[1..];
      InsertSorted(t, tail);
      BeforeTotal(KeyOf(t), KeyOf(s[0]));
      HeadBeforeInsert(s[0], t, tail);
      ConsSorted(s[0], Insert(t, tail));
    }
  }

  /** A row that comes before `t` and before every row of `tail` comes before every row of `Insert(t, tail)`. */
  lemma HeadBeforeInsert(h: Tweet, t: Tweet, tail: seq<Tweet>)
    requires Before(KeyOf(h), KeyOf(t))
    requires forall q :: 0 <= q < |tail| ==> Before(KeyOf(h), KeyOf(tail[q]))
    ensures forall k :: 0 <= k < |Insert(t, tail)| ==> Before(KeyOf(h), KeyOf(Insert(t, tail)[k]))
  {
    var m := Insert(t, tail);
    InsertMultiset(t, tail);
    forall k | 0 <= k < |m| ensures Before(KeyOf(h), KeyOf(m[k])) {
      assert m[k] in multiset(m);
      if m[k] != t {
        assert m[k] in multiset(tail);
        var q :| 0 <= q < |tail| && tail[q] == m[k];
      }
    }
  }

  /** Prefixing a row that comes before every row of a strictly descending sequence keeps it strictly descending. */
  lemma ConsSorted(h: Tweet, m: seq<Tweet>)
    requires SortedDesc(m)
    requires forall k :: 0 <= k < |m| ==> Before(KeyOf(h), KeyOf(m[k]))
    ensures SortedDesc([h] + m)
  {
    var r := [h] + m;
    forall i, j | 0 <= i < j < |r| ensures Before(KeyOf(r[i]), KeyOf(r[j])) {
      if i > 0 {
        assert r[i] == m[i - 1] && r[j] == m[j - 1];
      }
    }
  }

  /** The sort yields the same rows, strictly descending, when ids are unique. */
  lemma {:induction false} SortSpec(s: seq<Tweet>)
    requires UniqueIds(s)
    ensures SortedDesc(Sort(s)) && multiset(Sort(s)) == multiset(s)
    decreases |s|
  {
    if s != [] {
      var n := |s| - 1;
      var init, t := s[..n], s[n];
      assert s == init + [t];
      SortSpec(init);
      var r := Sort(init);
      forall x | x in r ensures KeyOf(x) != KeyOf(t) {
        assert x in multiset(r);
        assert x in init;
        var i :| 0 <= i < n && init[i] == x;
        assert s[i].id != s[n].id;
      }
      InsertSorted(t, r);
      InsertMultiset(t, r);
    }
  }

  /** A tweet that goes before the row at `s` is inserted at or before `s`: the rows from `s` on shift by one. */
  lemma {:induction false} InsertShiftsSuffix(t: Tweet, L: seq<Tweet>, s: nat)
    requires s < |L| && Before(KeyOf(t), KeyOf(L[s]))
    ensures |Insert(t, L)| == |L| + 1
    ensures Insert(t, L)[s + 1..] == L[s..]
    decreases s
  {
    if !Before(KeyOf(t), KeyOf(L[0])) {
      InsertShiftsSuffix(t, L[1..], s - 1);
      assert L[1..][s - 1..] == L[s..];
    }
  }
}
