/**
 * `sort_posts` (order.py): posts whose id is in the ordered id list come
 * first, in the list's order; the others follow, latest first. The list is
 * either passed in (`sorted_array`) or read from a JSON file.
 */
module Order {
  import opened Wrappers
  import opened Posts

  /** What reading `sorting_filename` gives: no such file, not valid JSON, or a list of ids. */
  datatype OrderFile = Missing | Corrupt | Ids(ids: seq<string>)

  /**
   * The ordered id list. `sortingFile` is `None` when no file name is given;
   * with no `sorted_array` either, `os.path.exists(None)` raises a
   * TypeError, which is the `None` result.
   */
  function LoadOrder(sortingFile: Option<OrderFile>, sortedArray: Option<seq<string>>): (ids: Option<seq<string>>)
    ensures sortedArray.Some? ==> ids == sortedArray
    ensures sortedArray.None? ==> (ids.None? <==> sortingFile.None?)
    ensures sortedArray.None? && sortingFile.Some? && sortingFile.value.Ids? ==> ids == Some(sortingFile.value.ids)
    ensures sortedArray.None? && sortingFile.Some? && !sortingFile.value.Ids? ==> ids == Some([])
  {
    if sortedArray.None? then
      match sortingFile
      case None => None
      case Some(Ids(ids)) => Some(ids)
      case Some(_) => Some([])
    else
      Some(sortedArray.value)
  }

  /** `k` is the last position of `id` in `ids`. */
  ghost predicate IsLastIndex(ids: seq<string>, id: string, k: int)
  {
    0 <= k < |ids| && ids[k] == id && forall j :: k < j < |ids| ==> ids[j] != id
  }

  /**
   * `{post_id: i for i, post_id in enumerate(ordered_post_ids)}`: a later
   * occurrence of an id overwrites an earlier one.
   */
  function OrderIndex(ids: seq<string>): (index: map<string, nat>)
    ensures forall id :: id in index <==> id in ids
    ensures forall id :: id in index ==> IsLastIndex(ids, id, index[id])
    decreases |ids|
  {
    if ids == [] then
      map[]
    else
      var n := |ids| - 1;
      assert ids == ids[..n] + [ids[n]];
      OrderIndex(ids[..n])[ids[n] := n]
  }

  /** `order_index.get(post_id, float('inf'))` */
  function Rank(index: map<string, nat>, p: Post): Option<nat>
  {
    if p.id in index then Some(index[p.id]) else None
  }

  /** The sort key `(order_index.get(post_id, inf), -timestamp)`. */
  function SortKey(ids: seq<string>): Post -> Key
  {
    var index := OrderIndex(ids);
    p => Key(Rank(index, p), -TsOr0(p))
  }

  /** `sorted(posts, key=...)` for a given ordered id list. */
  function SequencePosts(posts: seq<Post>, ids: seq<string>): (r: seq<Post>)
    ensures multiset(r) == multiset(posts)
  {
    SortBy(posts, SortKey(ids))
  }

  /**
   * `sort_posts(posts, sorting_filename, sorted_array)`; `None` when it
   * raises. Otherwise the result is the posts rearranged, sorted by the key
   * built from the loaded id list.
   */
  function SortPosts(posts: seq<Post>, sortingFile: Option<OrderFile>, sortedArray: Option<seq<string>>): (r: Option<seq<Post>>)
    ensures r.None? <==> sortedArray.None? && sortingFile.None?
    ensures r.Some? ==> r.value == SequencePosts(posts, LoadOrder(sortingFile, sortedArray).value)
    ensures r.Some? ==> multiset(r.value) == multiset(posts)
    ensures r.Some? ==> Sorted(r.value, SortKey(LoadOrder(sortingFile, sortedArray).value))
  {
    match LoadOrder(sortingFile, sortedArray)
    case None => None
    case Some(ids) => Some(SequencePosts(posts, ids))
  }

  // ---------------------------------------------------------------------
  // Properties
  // ---------------------------------------------------------------------

  lemma SortKeyAt(ids: seq<string>, p: Post)
    ensures SortKey(ids)(p).rank.None? <==> p.id !in ids
    ensures SortKey(ids)(p).rank.Some? ==> IsLastIndex(ids, p.id, SortKey(ids)(p).rank.value)
    ensures SortKey(ids)(p).neg == -TsOr0(p)
  {
  }

  lemma SequencePostsSorted(posts: seq<Post>, ids: seq<string>, i: int, j: int)
    requires 0 <= i < j < |SequencePosts(posts, ids)|
    ensures KeyLe(SortKey(ids)(SequencePosts(posts, ids)[i]), SortKey(ids)(SequencePosts(posts, ids)[j]))
  {
  }

  /** Posts whose id is in the list come before every post whose id is not. */
  lemma RankedBeforeUnranked(posts: seq<Post>, ids: seq<string>)
    ensures forall i, j ::
              (0 <= i < j < |SequencePosts(posts, ids)| && SequencePosts(posts, ids)[i].id !in ids) ==>
              SequencePosts(posts, ids)[j].id !in ids
  {
    var out := SequencePosts(posts, ids);
    forall i, j | 0 <= i < j < |out| && out[i].id !in ids ensures out[j].id !in ids {
      SequencePostsSorted(posts, ids, i, j);
      SortKeyAt(ids, out[i]);
      SortKeyAt(ids, out[j]);
    }
  }

  /**
   * Ranked posts follow the list: a post whose id is last listed at `ki`
   * comes after none whose id is last listed at a later position; two posts
   * with the same id are then latest first.
   */
  lemma RankedInListOrder(posts: seq<Post>, ids: seq<string>)
    ensures forall i, j, ki, kj ::
              (0 <= i < j < |SequencePosts(posts, ids)| &&
               IsLastIndex(ids, SequencePosts(posts, ids)[i].id, ki) &&
               IsLastIndex(ids, SequencePosts(posts, ids)[j].id, kj)) ==>
              ki <= kj && (ki == kj ==> TsOr0(SequencePosts(posts, ids)[i]) >= TsOr0(SequencePosts(posts, ids)[j]))
  {
    var out := SequencePosts(posts, ids);
    forall i, j, ki, kj | 0 <= i < j < |out| && IsLastIndex(ids, out[i].id, ki) && IsLastIndex(ids, out[j].id, kj)
      ensures ki <= kj && (ki == kj ==> TsOr0(out[i]) >= TsOr0(out[j]))
    {
      SequencePostsSorted(posts, ids, i, j);
      SortKeyAt(ids, out[i]);
      SortKeyAt(ids, out[j]);
      LastIndexUnique(ids, out[i].id, ki, SortKey(ids)(out[i]).rank.value);
      LastIndexUnique(ids, out[j].id, kj, SortKey(ids)(out[j]).rank.value);
    }
  }

  lemma LastIndexUnique(ids: seq<string>, id: string, k1: int, k2: int)
    requires IsLastIndex(ids, id, k1) && IsLastIndex(ids, id, k2)
    ensures k1 == k2
  {
  }

  /** Posts whose id is not in the list are ordered latest first; a missing timestamp counts as 0. */
  lemma UnrankedByRecency(posts: seq<Post>, ids: seq<string>)
    ensures forall i, j ::
              (0 <= i < j < |SequencePosts(posts, ids)| &&
               SequencePosts(posts, ids)[i].id !in ids && SequencePosts(posts, ids)[j].id !in ids) ==>
              TsOr0(SequencePosts(posts, ids)[i]) >= TsOr0(SequencePosts(posts, ids)[j])
  {
    var out := SequencePosts(posts, ids);
    forall i, j | 0 <= i < j < |out| && out[i].id !in ids && out[j].id !in ids
      ensures TsOr0(out[i]) >= TsOr0(out[j])
    {
      SequencePostsSorted(posts, ids, i, j);
      SortKeyAt(ids, out[i]);
      SortKeyAt(ids, out[j]);
    }
  }

  /** Posts with equal key, the same rank and the same timestamp, keep their input order. */
  lemma SequencePostsStable(posts: seq<Post>, ids: seq<string>)
    ensures SameClasses(SequencePosts(posts, ids), posts, SortKey(ids))
  {
    SortByStable(posts, SortKey(ids));
  }

  /**
   * The order is fully determined: the result is the one sequence that is
   * sorted by the key and keeps every group of equal-key posts in input order.
   */
  lemma SequencePostsCharacterized(posts: seq<Post>, ids: seq<string>, t: seq<Post>)
    ensures t == SequencePosts(posts, ids) <==> Sorted(t, SortKey(ids)) && SameClasses(t, posts, SortKey(ids))
  {
    SortByCharacterized(posts, t, SortKey(ids));
  }

  /**
   * A passed `sorted_array` wins over the file; a missing or corrupt file
   * gives the empty list, under which the result is latest first throughout;
   * with neither a list nor a file name the call raises.
   */
  lemma SortPostsSources(posts: seq<Post>, sortingFile: Option<OrderFile>, sortedArray: Option<seq<string>>)
    ensures sortedArray.Some? ==> SortPosts(posts, sortingFile, sortedArray) == Some(SequencePosts(posts, sortedArray.value))
    ensures sortedArray.None? && sortingFile.None? ==> SortPosts(posts, sortingFile, sortedArray).None?
    ensures sortedArray.None? && sortingFile.Some? && !sortingFile.value.Ids? ==>
              SortPosts(posts, sortingFile, sortedArray) == Some(SequencePosts(posts, [])) &&
              forall i, j :: 0 <= i < j < |SequencePosts(posts, [])| ==>
                TsOr0(SequencePosts(posts, [])[i]) >= TsOr0(SequencePosts(posts, [])[j])
  {
    UnrankedByRecency(posts, []);
  }
}
