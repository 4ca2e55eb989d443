/**
 * `sort_latest_posts` (generate.py): the feed of the newest posts. The given
 * posts are added to the module-level `latest_posts`, which is then cut back
 * to the `rss_feed_amount` most recently updated ones.
 */
module Generate {
  import opened Wrappers
  import opened Posts

  /** The key of `sorted(..., key=lastUpdatedTimestamp, reverse=True)`, as an ascending key. */
  function LatestKey(p: Post): Key
  {
    Key(None, -TsOr0(p))
  }

  /**
   * `sorted(s, key=..., reverse=True)[:n]`: the `n` newest posts, ties in
   * input order. It holds `n` posts, or all of them when there are fewer.
   */
  function Top(s: seq<Post>, n: nat): (r: seq<Post>)
    ensures |r| == if n < |s| then n else |s|
  {
    Take(SortBy(s, LatestKey), n)
  }

  /** Every post carries `_published.lastUpdatedTimestamp`; otherwise the key function raises KeyError. */
  predicate AllTimestamped(s: seq<Post>)
  {
    forall p :: p in s ==> p.updated.Some?
  }

  /** The module-level `latest_posts` list. */
  class LatestFeed {
    var latest: seq<Post>

    constructor()
      ensures latest == []
    {
      latest := [];
    }

    /**
     * `sort_latest_posts(posts)` with `amount` the configured
     * `rss_feed_amount`. With a positive amount the posts are appended in
     * place, and the list is then cut to the `amount` newest. When a post has
     * no timestamp the sort raises after the append: `ok` is false and the
     * list keeps the appended posts.
     */
    method SortLatestPosts(posts: seq<Post>, amount: int) returns (ok: bool)
      modifies this
      ensures amount <= 0 ==> ok && latest == old(latest)
      ensures amount > 0 ==> ok == AllTimestamped(old(latest) + posts)
      ensures amount > 0 && ok ==> latest == Top(old(latest) + posts, amount)
      ensures amount > 0 && !ok ==> latest == old(latest) + posts
    {
      ok := true;
      if amount > 0 {
        latest := latest + posts;
        if AllTimestamped(latest) {
          latest := Top(latest, amount);
        } else {
          ok := false;
        }
      }
    }
  }

  // ---------------------------------------------------------------------
  // Properties
  // ---------------------------------------------------------------------

  lemma SortedPrefix(t: seq<Post>, n: nat, key: Post -> Key)
    requires Sorted(t, key)
    ensures Sorted(Take(t, n), key)
  {
  }

  /** Newest first. */
  lemma TopNewestFirst(s: seq<Post>, n: nat)
    ensures forall i, j :: 0 <= i < j < |Top(s, n)| ==> TsOr0(Top(s, n)[i]) >= TsOr0(Top(s, n)[j])
  {
    var t := SortBy(s, LatestKey);
    forall i, j | 0 <= i < j < |Top(s, n)| ensures TsOr0(Top(s, n)[i]) >= TsOr0(Top(s, n)[j]) {
      assert Top(s, n)[i] == t[i] && Top(s, n)[j] == t[j];
      assert KeyLe(LatestKey(t[i]), LatestKey(t[j]));
    }
  }

  /** The posts the cut drops: the rest of the sorted list. */
  function Dropped(s: seq<Post>, n: nat): seq<Post>
  {
    var t := SortBy(s, LatestKey);
    if n < |t| then t[n..] else []
  }

  /** The kept and the dropped posts together are the input, each post as often as there. */
  lemma TopAndDropped(s: seq<Post>, n: nat)
    ensures multiset(Top(s, n)) + multiset(Dropped(s, n)) == multiset(s)
  {
    var t := SortBy(s, LatestKey);
    var m := if n < |t| then n else |t|;
    assert Top(s, n) == t[..m] && Dropped(s, n) == t[m..];
    assert t == t[..m] + t[m..];
  }

  /**
   * The feed is drawn from the input, and no post left out is newer than a
   * post kept.
   */
  lemma TopKeepsNewest(s: seq<Post>, n: nat)
    ensures multiset(Top(s, n)) <= multiset(s)
    ensures forall x, y :: x in Top(s, n) && y in multiset(s) - multiset(Top(s, n)) ==> TsOr0(x) >= TsOr0(y)
  {
    TopAndDropped(s, n);
    var top, rest := Top(s, n), Dropped(s, n);
    forall x, y | x in top && y in multiset(s) - multiset(top) ensures TsOr0(x) >= TsOr0(y) {
      assert y in multiset(rest);
      var t := SortBy(s, LatestKey);
      var i :| 0 <= i < |top| && top[i] == x;
      var j :| 0 <= j < |rest| && rest[j] == y;
      assert t[i] == x && t[n + j] == y;
      assert KeyLe(LatestKey(t[i]), LatestKey(t[n + j]));
    }
  }

  /** A call with no new posts leaves a cut list as it is. */
  lemma TopIdempotent(s: seq<Post>, n: nat)
    ensures Top(Top(s, n), n) == Top(s, n)
  {
    TopStreaming(s, [], n);
    assert Top(s, n) + [] == Top(s, n) && s + [] == s;
  }

  /** Posts with the same timestamp appear in the feed in input order, earliest-listed first. */
  lemma TopStable(s: seq<Post>, n: nat)
    ensures forall k :: Class(Top(s, n), LatestKey, k) <= Class(s, LatestKey, k)
  {
    var t := SortBy(s, LatestKey);
    var m := if n < |t| then n else |t|;
    SortByStable(s, LatestKey);
    assert t == Top(s, n) + t[m..];
    forall k ensures Class(Top(s, n), LatestKey, k) <= Class(s, LatestKey, k) {
      ClassAppend(Top(s, n), t[m..], LatestKey, k);
    }
  }

  /**
   * Cutting the list after every call loses nothing: keeping the `n` newest
   * of the kept posts and the new ones is keeping the `n` newest of all posts.
   */
  lemma TopStreaming(a: seq<Post>, b: seq<Post>, n: nat)
    ensures Top(Top(a, n) + b, n) == Top(a + b, n)
  {
    var sa, sb := SortBy(a, LatestKey), SortBy(b, LatestKey);
    var ta := Take(sa, n);
    SortedPrefix(sa, n, LatestKey);
    SortBySorted(ta, LatestKey);
    SortByAppend(ta, b, LatestKey);
    SortByAppend(a, b, LatestKey);
    TakeMergeBy(sa, sb, LatestKey, n);
  }
}
