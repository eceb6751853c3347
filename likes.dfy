/**
 * The like relation as a set of (userId, tweetId) pairs: the toggle applied by
 * `toggleLike` and the per-tweet count selected as `_count.likes`.
 */
module Likes {
  import opened Entities

  /** The like set after one toggle of `l`: `l` flips membership, every other pair stays. */
  function Toggled(likes: set<Like>, l: Like): (r: set<Like>)
    ensures l in r <==> l !in likes
    ensures forall m :: m != l ==> (m in r <==> m in likes)
  {
    if l in likes then likes - {l} else likes + {l}
  }

  /** Toggling the same pair twice restores the like set. */
  lemma ToggleInvolution(likes: set<Like>, l: Like)
    ensures Toggled(Toggled(likes, l), l) == likes
  {
  }

  /** The like set after `n` toggles of the same pair, in sequence. */
  function ToggleTimes(likes: set<Like>, l: Like, n: nat): set<Like>
  {
    if n == 0 then likes else Toggled(ToggleTimes(likes, l, n - 1), l)
  }

  /**
   * Repeated toggles of one pair: membership alternates with every call, and an
   * even number of calls gives back the original like set.
   */
  lemma {:induction false} ToggleTimesParity(likes: set<Like>, l: Like, n: nat)
    ensures ToggleTimes(likes, l, n) == if n % 2 == 0 then likes else Toggled(likes, l)
    ensures l in ToggleTimes(likes, l, n) <==> (l in likes <==> n % 2 == 0)
  {
    if n > 0 {
      ToggleTimesParity(likes, l, n - 1);
      ToggleInvolution(likes, l);
    }
  }

  /** The like rows that reference a tweet. */
  function LikesOf(likes: set<Like>, tweetId: TweetId): set<Like>
  {
    set l | l in likes && l.tweetId == tweetId
  }

  /** `_count.likes`: the number of like rows that reference the tweet. */
  function LikeCount(likes: set<Like>, tweetId: TweetId): (n: nat)
    ensures forall u :: Like(u, tweetId) in likes ==> n > 0
  {
    LikedIsCounted(likes, tweetId);
    |LikesOf(likes, tweetId)|
  }

  lemma LikedIsCounted(likes: set<Like>, tweetId: TweetId)
    ensures forall u :: Like(u, tweetId) in likes ==> |LikesOf(likes, tweetId)| > 0
  {
    forall u | Like(u, tweetId) in likes ensures |LikesOf(likes, tweetId)| > 0 {
      assert Like(u, tweetId) in LikesOf(likes, tweetId);
    }
  }

  /**
   * A toggle of (u, t) moves the count of tweet t by exactly one, up when the
   * like was added and down when it was removed, and leaves every other count.
   */
  lemma ToggleLikeCount(likes: set<Like>, l: Like, tweetId: TweetId)
    ensures LikeCount(Toggled(likes, l), tweetId) ==
      if tweetId != l.tweetId then LikeCount(likes, tweetId)
      else if l in likes then LikeCount(likes, tweetId) - 1
      else LikeCount(likes, tweetId) + 1
  {
    var before, after := LikesOf(likes, tweetId), LikesOf(Toggled(likes, l), tweetId);
    if tweetId != l.tweetId {
      assert after == before;
    } else if l in likes {
      assert after == before - {l};
    } else {
      assert after == before + {l};
    }
  }
}
