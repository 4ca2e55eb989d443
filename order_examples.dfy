/** Small inputs worked through `sort_posts`. */
module OrderExamples {
  import opened Wrappers
  import opened Posts
  import opened Order

  // Unfolding steps of the sort on short displayed sequences.

  lemma SortByOne(x: Post, key: Post -> Key)
    ensures SortBy([x], key) == [x]
  {
    assert [x][1..] == [];
  }

  lemma SortByTwo(x: Post, y: Post, key: Post -> Key)
    ensures SortBy([x, y], key) == Insert(x, SortBy([y], key), key)
  {
    assert [x, y][1..] == [y];
  }

  lemma SortByThree(x: Post, y: Post, z: Post, key: Post -> Key)
    ensures SortBy([x, y, z], key) == Insert(x, SortBy([y, z], key), key)
  {
    assert [x, y, z][1..] == [y, z];
  }

  lemma InsertBefore(x: Post, y: Post, key: Post -> Key)
    requires KeyLe(key(x), key(y))
    ensures Insert(x, [y], key) == [x, y]
  {
  }

  lemma InsertAfter(x: Post, y: Post, key: Post -> Key)
    requires !KeyLe(key(x), key(y))
    ensures Insert(x, [y], key) == [y, x]
  {
    assert [y][1..] == [];
  }

  lemma InsertBetween(x: Post, y: Post, z: Post, key: Post -> Key)
    requires !KeyLe(key(x), key(y)) && KeyLe(key(x), key(z))
    ensures Insert(x, [y, z], key) == [y, x, z]
  {
    assert [y, z][1..] == [z];
  }

  lemma InsertLast(x: Post, y: Post, z: Post, key: Post -> Key)
    requires !KeyLe(key(x), key(y)) && !KeyLe(key(x), key(z))
    ensures Insert(x, [y, z], key) == [y, z, x]
  {
    assert [y, z][1..] == [z];
    InsertAfter(x, z, key);
  }

  lemma ListedKeys(p1: Post, p2: Post, p3: Post, ids: seq<string>)
    requires p1 == Post("p1", Some(100)) && p2 == Post("p2", Some(50)) && p3 == Post("p3", Some(200))
    requires ids == ["p2", "p1"]
    ensures SortKey(ids)(p1) == Key(Some(1), -100)
    ensures SortKey(ids)(p2) == Key(Some(0), -50)
    ensures SortKey(ids)(p3) == Key(None, -200)
  {
    assert ids[..1] == ["p2"] && ids[..1][..0] == [];
    assert OrderIndex(ids) == map["p2" := 0, "p1" := 1];
  }

  /** The order-list example: list `[p2, p1]`, posts p1 (100), p3 (200), p2 (50). */
  lemma ListedThenUnlisted(p1: Post, p2: Post, p3: Post, ids: seq<string>)
    requires p1 == Post("p1", Some(100)) && p2 == Post("p2", Some(50)) && p3 == Post("p3", Some(200))
    requires ids == ["p2", "p1"]
    ensures SequencePosts([p1, p3, p2], ids) == [p2, p1, p3]
  {
    var key := SortKey(ids);
    ListedKeys(p1, p2, p3, ids);
    SortByThree(p1, p3, p2, key);
    SortByTwo(p3, p2, key);
    SortByOne(p2, key);
    InsertAfter(p3, p2, key);
    InsertBetween(p1, p2, p3, key);
  }

  /** The recency example: no list, posts a (100), b (300), c (300) with b before c. */
  lemma LatestFirstStable(a: Post, b: Post, c: Post)
    requires a == Post("a", Some(100)) && b == Post("b", Some(300)) && c == Post("c", Some(300))
    ensures SequencePosts([a, b, c], []) == [b, c, a]
  {
    var key := SortKey([]);
    assert key(a) == Key(None, -100);
    assert key(b) == Key(None, -300);
    assert key(c) == Key(None, -300);
    SortByThree(a, b, c, key);
    SortByTwo(b, c, key);
    SortByOne(c, key);
    InsertBefore(b, c, key);
    InsertLast(a, b, c, key);
  }
}
