/**
 * Posts as the ordering code sees them, and the stable key-based sort that
 * Python's built-in `sorted` performs on them (order.py and generate.py both
 * call it).
 *
 * A key is a Python tuple `(rank, -timestamp)` compared lexicographically;
 * a rank of `None` stands for `float('inf')` and so is above every number.
 * Sorting by timestamp with `reverse=True` is, for a stable sort, the same as
 * sorting ascending on `-timestamp`, so generate.py's key embeds into the same
 * type with a constant `None` rank.
 */
module Posts {
  import opened Wrappers

  /** A post: its `post_id` and its `_published.lastUpdatedTimestamp`, which may be absent. */
  datatype Post = Post(id: string, updated: Option<int>)

  /** The timestamp, with an absent one read as 0 (`.get('lastUpdatedTimestamp', 0)`). */
  function TsOr0(p: Post): int
  {
    if p.updated.Some? then p.updated.value else 0
  }

  datatype Key = Key(rank: Option<nat>, neg: int)

  /** `None` (infinity) is above every index. */
  predicate RankLe(a: Option<nat>, b: Option<nat>)
  {
    match a
    case None => b.None?
    case Some(i) => b.None? || i <= b.value
  }

  /** Python's tuple comparison `a <= b` on `(rank, -timestamp)`. */
  predicate KeyLe(a: Key, b: Key)
  {
    if a.rank == b.rank then a.neg <= b.neg else RankLe(a.rank, b.rank)
  }

  lemma KeyLeTotalOrder(a: Key, b: Key, c: Key)
    ensures KeyLe(a, a)
    ensures KeyLe(a, b) || KeyLe(b, a)
    ensures KeyLe(a, b) && KeyLe(b, a) ==> a == b
    ensures KeyLe(a, b) && KeyLe(b, c) ==> KeyLe(a, c)
  {
  }

  /** Non-decreasing in the key. */
  ghost predicate Sorted(s: seq<Post>, key: Post -> Key)
  {
    forall i, j :: 0 <= i < j < |s| ==> KeyLe(key(s[i]), key(s[j]))
  }

  /** The posts of `s` whose key is `k`, in the order of `s`. */
  function Class(s: seq<Post>, key: Post -> Key, k: Key): seq<Post>
  {
    if s == [] then [] else (if key(s[0]) == k then [s[0]] else []) + Class(s[1..], key, k)
  }

  /**
   * `t` keeps the relative order of every group of equal-key posts of `s`:
   * what it means for a sort to be stable. It implies that `t` is a
   * permutation of `s` (see StableIsPermutation).
   */
  ghost predicate SameClasses(t: seq<Post>, s: seq<Post>, key: Post -> Key)
  {
    forall k :: Class(t, key, k) == Class(s, key, k)
  }

  /** `x` placed in front of the first post of `t` whose key is not below its own. */
  function Insert(x: Post, t: seq<Post>, key: Post -> Key): (r: seq<Post>)
    ensures |r| == |t| + 1
  {
    if t == [] || KeyLe(key(x), key(t[0])) then
      [x] + t
    else
      [t[0]] + Insert(x, t[1..], key)
  }

  /** Inserting adds `x` and keeps every other post. */
  lemma {:induction false} InsertPermutes(x: Post, t: seq<Post>, key: Post -> Key)
    ensures multiset(Insert(x, t, key)) == multiset(t) + multiset{x}
  {
    if t != [] && !KeyLe(key(x), key(t[0])) {
      var r := Insert(x, t[1..], key);
      InsertPermutes(x, t[1..], key);
      assert Insert(x, t, key) == [t[0]] + r;
      assert multiset([t[0]] + r) == multiset{t[0]} + multiset(r);
      assert t == [t[0]] + t[1..];
      assert multiset(t) == multiset{t[0]} + multiset(t[1..]);
    }
  }

  lemma {:induction false} InsertMember(x: Post, t: seq<Post>, key: Post -> Key, y: Post)
    ensures y in Insert(x, t, key) <==> y == x || y in t
  {
    if t != [] && !KeyLe(key(x), key(t[0])) {
      InsertMember(x, t[1..], key, y);
      assert t == [t[0]] + t[1..];
    }
  }

  lemma {:induction false} InsertSorted(x: Post, t: seq<Post>, key: Post -> Key)
    requires Sorted(t, key)
    ensures Sorted(Insert(x, t, key), key)
  {
    if t != [] && !KeyLe(key(x), key(t[0])) {
      var rest := Insert(x, t[1..], key);
      InsertSorted(x, t[1..], key);
      KeyLeTotalOrder(key(x), key(t[0]), key(t[0]));
      forall j | 0 <= j < |rest| ensures KeyLe(key(t[0]), key(rest[j])) {
        var y := rest[j];
        InsertMember(x, t[1..], key, y);
        if y != x {
          assert y in t;
          HeadIsLeast(t, key, y);
        }
      }
      SortedCons(t[0], rest, key);
    }
  }

  /** The stable sort of `s` by `key`: insertion sort from the back. */
  function SortBy(s: seq<Post>, key: Post -> Key): (r: seq<Post>)
    ensures multiset(r) == multiset(s)
    ensures |r| == |s|
    ensures Sorted(r, key)
  {
    if s == [] then
      []
    else
      assert s == [s[0]] + s[1..];
      InsertSorted(s[0], SortBy(s[1..], key), key);
      InsertPermutes(s[0], SortBy(s[1..], key), key);
      Insert(s[0], SortBy(s[1..], key), key)
  }

  lemma ClassCons(s: seq<Post>, key: Post -> Key, k: Key)
    requires s != []
    ensures Class(s, key, k) == (if key(s[0]) == k then [s[0]] else []) + Class(s[1..], key, k)
  {
  }

  lemma {:induction false} ClassAppend(a: seq<Post>, b: seq<Post>, key: Post -> Key, k: Key)
    ensures Class(a + b, key, k) == Class(a, key, k) + Class(b, key, k)
  {
    if a == [] {
      assert a + b == b;
    } else {
      assert (a + b)[0] == a[0] && (a + b)[1..] == a[1..] + b;
      ClassAppend(a[1..], b, key, k);
    }
  }

  lemma {:induction false} ClassMember(s: seq<Post>, key: Post -> Key, k: Key, x: Post)
    ensures x in Class(s, key, k) <==> x in s && key(x) == k
  {
    if s != [] {
      ClassMember(s[1..], key, k, x);
      assert s == [s[0]] + s[1..];
    }
  }

  lemma {:induction false} ClassMultiset(s: seq<Post>, key: Post -> Key, k: Key, x: Post)
    ensures multiset(Class(s, key, k))[x] == if key(x) == k then multiset(s)[x] else 0
  {
    if s != [] {
      ClassMultiset(s[1..], key, k, x);
      assert s == [s[0]] + s[1..];
    }
  }

  /** Inserting adds `x` to its own group in front, and leaves the other groups alone. */
  lemma {:induction false} ClassInsert(x: Post, t: seq<Post>, key: Post -> Key, k: Key)
    ensures Class(Insert(x, t, key), key, k) == (if key(x) == k then [x] else []) + Class(t, key, k)
  {
    if t == [] || KeyLe(key(x), key(t[0])) {
      ClassCons([x] + t, key, k);
      assert ([x] + t)[1..] == t;
    } else {
      var r := Insert(x, t[1..], key);
      var here := if key(t[0]) == k then [t[0]] else [];
      assert Insert(x, t, key) == [t[0]] + r;
      ClassInsert(x, t[1..], key, k);
      ClassCons([t[0]] + r, key, k);
      assert ([t[0]] + r)[1..] == r;
      assert Class([t[0]] + r, key, k) == here + Class(r, key, k);
      ClassCons(t, key, k);
      assert Class(t, key, k) == here + Class(t[1..], key, k);
      KeyLeTotalOrder(key(x), key(t[0]), key(t[0]));
      if key(x) == k {
        assert here == [];
        assert Class(r, key, k) == [x] + Class(t[1..], key, k);
      } else {
        assert Class(r, key, k) == Class(t[1..], key, k);
      }
    }
  }

  /** The sort is stable: each group of equal-key posts keeps its input order. */
  lemma {:induction false} SortByStable(s: seq<Post>, key: Post -> Key)
    ensures SameClasses(SortBy(s, key), s, key)
  {
    if s != [] {
      SortByStable(s[1..], key);
      forall k ensures Class(SortBy(s, key), key, k) == Class(s, key, k) {
        ClassInsert(s[0], SortBy(s[1..], key), key, k);
      }
    }
  }

  /** Keeping every group in order keeps every post, with its multiplicity. */
  lemma StableIsPermutation(t: seq<Post>, s: seq<Post>, key: Post -> Key)
    requires SameClasses(t, s, key)
    ensures multiset(t) == multiset(s)
  {
    forall x ensures multiset(t)[x] == multiset(s)[x] {
      ClassMultiset(t, key, key(x), x);
      ClassMultiset(s, key, key(x), x);
      assert Class(t, key, key(x)) == Class(s, key, key(x));
    }
  }

  lemma ClassOfHead(s: seq<Post>, key: Post -> Key)
    ensures s != [] ==> Class(s, key, key(s[0])) != []
  {
  }

  /** The head of a sorted sequence has the least key of any of its posts. */
  lemma HeadIsLeast(t: seq<Post>, key: Post -> Key, y: Post)
    requires Sorted(t, key) && y in t
    ensures KeyLe(key(t[0]), key(y))
  {
    var j :| 0 <= j < |t| && t[j] == y;
    if j > 0 {
      assert KeyLe(key(t[0]), key(t[j]));
    } else {
      KeyLeTotalOrder(key(y), key(y), key(y));
    }
  }

  /**
   * Sortedness and stability determine the result: two sorted sequences with
   * the same groups are equal. So any stable sort, Python's Timsort included,
   * returns what SortBy returns.
   */
  lemma {:induction false} SortedSameClassesUnique(t1: seq<Post>, t2: seq<Post>, key: Post -> Key)
    requires Sorted(t1, key) && Sorted(t2, key)
    requires SameClasses(t1, t2, key)
    ensures t1 == t2
    decreases |t1|
  {
    ClassOfHead(t2, key);
    if t1 != [] {
      SameHeads(t1, t2, key);
      SameClassesTails(t1, t2, key);
      SortedSameClassesUnique(t1[1..], t2[1..], key);
      assert t1 == [t1[0]] + t1[1..] && t2 == [t2[0]] + t2[1..];
    }
  }

  /** Two sorted sequences with the same groups start with the same post. */
  lemma SameHeads(t1: seq<Post>, t2: seq<Post>, key: Post -> Key)
    requires Sorted(t1, key) && Sorted(t2, key)
    requires SameClasses(t1, t2, key) && t1 != []
    ensures t2 != [] && t1[0] == t2[0]
  {
    var k1 := key(t1[0]);
    assert Class(t1, key, k1)[0] == t1[0];
    assert Class(t2, key, k1) == Class(t1, key, k1);
    ClassMember(t2, key, k1, t1[0]);
    var k2 := key(t2[0]);
    assert Class(t2, key, k2)[0] == t2[0];
    assert Class(t1, key, k2) == Class(t2, key, k2);
    ClassMember(t1, key, k2, t2[0]);
    HeadIsLeast(t1, key, t2[0]);
    HeadIsLeast(t2, key, t1[0]);
    KeyLeTotalOrder(k1, k2, k2);
    assert k1 == k2;
    assert Class(t1, key, k1) == [t1[0]] + Class(t1[1..], key, k1);
    assert Class(t2, key, k1) == [t2[0]] + Class(t2[1..], key, k1);
  }

  /** Removing an equal head from two sequences with the same groups leaves the same groups. */
  lemma SameClassesTails(t1: seq<Post>, t2: seq<Post>, key: Post -> Key)
    requires t1 != [] && t2 != [] && t1[0] == t2[0]
    requires SameClasses(t1, t2, key)
    ensures SameClasses(t1[1..], t2[1..], key)
  {
    forall k ensures Class(t1[1..], key, k) == Class(t2[1..], key, k) {
      assert Class(t1, key, k) == Class(t2, key, k);
      ClassCons(t1, key, k);
      ClassCons(t2, key, k);
      if key(t1[0]) == k {
        assert Class(t1[1..], key, k) == Class(t1, key, k)[1..];
        assert Class(t2[1..], key, k) == Class(t2, key, k)[1..];
      } else {
        assert Class(t1[1..], key, k) == Class(t1, key, k);
        assert Class(t2[1..], key, k) == Class(t2, key, k);
      }
    }
  }

  /** A sequence is the stable sort of `s` exactly when it is sorted and keeps every group in order. */
  lemma SortByCharacterized(s: seq<Post>, t: seq<Post>, key: Post -> Key)
    ensures t == SortBy(s, key) <==> Sorted(t, key) && SameClasses(t, s, key)
  {
    SortByStable(s, key);
    if Sorted(t, key) && SameClasses(t, s, key) {
      SortedSameClassesUnique(t, SortBy(s, key), key);
    }
  }

  /** A sorted sequence is its own stable sort. */
  lemma SortBySorted(t: seq<Post>, key: Post -> Key)
    requires Sorted(t, key)
    ensures SortBy(t, key) == t
  {
    SortByCharacterized(t, t, key);
  }

  /** Stable merge of two sequences; on equal keys the left one goes first. */
  function MergeBy(a: seq<Post>, b: seq<Post>, key: Post -> Key): (r: seq<Post>)
    ensures |r| == |a| + |b|
    decreases |a| + |b|
  {
    if a == [] then b
    else if b == [] then a
    else if KeyLe(key(a[0]), key(b[0])) then
      [a[0]] + MergeBy(a[1..], b, key)
    else
      [b[0]] + MergeBy(a, b[1..], key)
  }

  /** Merging keeps every post of both sides, and adds none. */
  lemma {:induction false} MergeByMember(a: seq<Post>, b: seq<Post>, key: Post -> Key, y: Post)
    ensures y in MergeBy(a, b, key) <==> y in a || y in b
    decreases |a| + |b|
  {
    if a != [] && b != [] {
      if KeyLe(key(a[0]), key(b[0])) {
        MergeByMember(a[1..], b, key, y);
        assert a == [a[0]] + a[1..];
      } else {
        MergeByMember(a, b[1..], key, y);
        assert b == [b[0]] + b[1..];
      }
    }
  }

  /** Every post of `t` is at or above `x`'s key. */
  ghost predicate AllAbove(x: Post, t: seq<Post>, key: Post -> Key)
  {
    forall j :: 0 <= j < |t| ==> KeyLe(key(x), key(t[j]))
  }

  lemma SortedCons(x: Post, t: seq<Post>, key: Post -> Key)
    requires Sorted(t, key) && AllAbove(x, t, key)
    ensures Sorted([x] + t, key)
  {
    var r := [x] + t;
    forall i, j | 0 <= i < j < |r| ensures KeyLe(key(r[i]), key(r[j])) {
      if i > 0 {
        assert r[i] == t[i - 1] && r[j] == t[j - 1];
      } else {
        assert r[j] == t[j - 1];
      }
    }
  }

  lemma {:induction false} MergeBySorted(a: seq<Post>, b: seq<Post>, key: Post -> Key)
    requires Sorted(a, key) && Sorted(b, key)
    ensures Sorted(MergeBy(a, b, key), key)
    decreases |a| + |b|
  {
    if a != [] && b != [] {
      var h, rest;
      if KeyLe(key(a[0]), key(b[0])) {
        MergeBySorted(a[1..], b, key);
        h, rest := a[0], MergeBy(a[1..], b, key);
      } else {
        MergeBySorted(a, b[1..], key);
        h, rest := b[0], MergeBy(a, b[1..], key);
        KeyLeTotalOrder(key(a[0]), key(b[0]), key(b[0]));
      }
      assert a == [a[0]] + a[1..] && b == [b[0]] + b[1..];
      forall j | 0 <= j < |rest| ensures KeyLe(key(h), key(rest[j])) {
        var y := rest[j];
        if KeyLe(key(a[0]), key(b[0])) {
          MergeByMember(a[1..], b, key, y);
        } else {
          MergeByMember(a, b[1..], key, y);
        }
        if y in a {
          HeadIsLeast(a, key, y);
          KeyLeTotalOrder(key(h), key(a[0]), key(y));
        } else {
          HeadIsLeast(b, key, y);
          KeyLeTotalOrder(key(h), key(b[0]), key(y));
        }
      }
      SortedCons(h, rest, key);
    }
  }

  /** A sorted sequence whose head is above `k` has no post with key `k`. */
  lemma ClassBelowHead(a: seq<Post>, key: Post -> Key, k: Key)
    requires Sorted(a, key) && a != [] && KeyLe(k, key(a[0])) && k != key(a[0])
    ensures Class(a, key, k) == []
  {
    if Class(a, key, k) != [] {
      var y := Class(a, key, k)[0];
      ClassMember(a, key, k, y);
      HeadIsLeast(a, key, y);
      KeyLeTotalOrder(k, key(a[0]), k);
    }
  }

  lemma {:induction false} MergeByClass(a: seq<Post>, b: seq<Post>, key: Post -> Key, k: Key)
    requires Sorted(a, key)
    ensures Class(MergeBy(a, b, key), key, k) == Class(a, key, k) + Class(b, key, k)
    decreases |a| + |b|
  {
    if a == [] {
    } else if b == [] {
    } else if KeyLe(key(a[0]), key(b[0])) {
      MergeByClass(a[1..], b, key, k);
      ClassCons(a, key, k);
      ClassCons([a[0]] + MergeBy(a[1..], b, key), key, k);
      assert ([a[0]] + MergeBy(a[1..], b, key))[1..] == MergeBy(a[1..], b, key);
    } else {
      MergeByClass(a, b[1..], key, k);
      ClassCons(b, key, k);
      ClassCons([b[0]] + MergeBy(a, b[1..], key), key, k);
      assert ([b[0]] + MergeBy(a, b[1..], key))[1..] == MergeBy(a, b[1..], key);
      if key(b[0]) == k {
        KeyLeTotalOrder(key(a[0]), key(b[0]), key(b[0]));
        ClassBelowHead(a, key, k);
      }
    }
  }

  /** Sorting a concatenation is merging the two sorted halves. */
  lemma SortByAppend(a: seq<Post>, b: seq<Post>, key: Post -> Key)
    ensures SortBy(a + b, key) == MergeBy(SortBy(a, key), SortBy(b, key), key)
  {
    var sa, sb := SortBy(a, key), SortBy(b, key);
    SortByStable(a, key);
    SortByStable(b, key);
    MergeBySorted(sa, sb, key);
    forall k ensures Class(MergeBy(sa, sb, key), key, k) == Class(a + b, key, k) {
      MergeByClass(sa, sb, key, k);
      ClassAppend(a, b, key, k);
    }
    SortByCharacterized(a + b, MergeBy(sa, sb, key), key);
  }

  /** The first `n` posts of `s`, or all of them when there are fewer (Python's `s[:n]`, `n >= 0`). */
  function Take(s: seq<Post>, n: nat): (r: seq<Post>)
    ensures |r| == if n < |s| then n else |s|
    ensures r <= s
  {
    if n < |s| then s[..n] else s
  }

  lemma TakeCons(x: Post, s: seq<Post>, n: nat)
    requires n > 0
    ensures Take([x] + s, n) == [x] + Take(s, n - 1)
  {
  }

  /** The first `n` posts of a merge use at most the first `n` posts of its left side. */
  lemma {:induction false} TakeMergeBy(a: seq<Post>, b: seq<Post>, key: Post -> Key, n: nat)
    ensures Take(MergeBy(a, b, key), n) == Take(MergeBy(Take(a, n), b, key), n)
    decreases |a| + |b|
  {
    var ta := Take(a, n);
    if n == 0 || a == [] || b == [] || ta == a {
    } else {
      assert ta[0] == a[0] && ta[1..] == Take(a[1..], n - 1);
      if KeyLe(key(a[0]), key(b[0])) {
        TakeMergeBy(a[1..], b, key, n - 1);
        assert MergeBy(a, b, key) == [a[0]] + MergeBy(a[1..], b, key);
        assert MergeBy(ta, b, key) == [a[0]] + MergeBy(ta[1..], b, key);
        TakeCons(a[0], MergeBy(a[1..], b, key), n);
        TakeCons(a[0], MergeBy(ta[1..], b, key), n);
      } else {
        TakeMergeBy(a, b[1..], key, n - 1);
        TakeMergeBy(ta, b[1..], key, n - 1);
        assert Take(ta, n - 1) == Take(a, n - 1);
        assert MergeBy(a, b, key) == [b[0]] + MergeBy(a, b[1..], key);
        assert MergeBy(ta, b, key) == [b[0]] + MergeBy(ta, b[1..], key);
        TakeCons(b[0], MergeBy(a, b[1..], key), n);
        TakeCons(b[0], MergeBy(ta, b[1..], key), n);
      }
    }
  }
}
