/** The dataframe operations the plotting modules chain together, on a
    table modelled as a sequence of row values: a boolean-mask filter
    (`.loc[lambda x: ...]`), `.head(n)` and `.sort_values(key, ascending=False)`. */
module Table {

  /** `a` is `b` with some rows removed, the rest in their original order. */
  ghost predicate IsSubsequence<T>(a: seq<T>, b: seq<T>)
    decreases |b|
  {
    a == [] ||
    (b != [] && ((a[0] == b[0] && IsSubsequence(a[1..], b[1..])) || IsSubsequence(a, b[1..])))
  }

  /** `df.loc[lambda x: p(x)]`: the rows satisfying `p`, in order. */
  function Filter<T(!new)>(s: seq<T>, p: T -> bool): (r: seq<T>)
    ensures |r| <= |s|
    ensures forall i | 0 <= i < |r| :: p(r[i])
    ensures (forall i | 0 <= i < |s| :: p(s[i])) ==> r == s
  {
    if s == [] then []
    else
      assert s == [s[0]] + s[1..];
      if p(s[0]) then [s[0]] + Filter(s[1..], p) else Filter(s[1..], p)
  }

  /** The rows kept are exactly the rows of `s` passing `p`. */
  lemma {:induction false} FilterMembers<T(!new)>(s: seq<T>, p: T -> bool)
    ensures forall x :: x in Filter(s, p) <==> x in s && p(x)
  {
    if s != [] {
      FilterMembers(s[1..], p);
      assert s == [s[0]] + s[1..];
    }
  }

  /** Each row passing `p` is kept as often as it occurs; no other row is
      kept. */
  lemma {:induction false} FilterCount<T(!new)>(s: seq<T>, p: T -> bool)
    ensures forall x :: multiset(Filter(s, p))[x] == if p(x) then multiset(s)[x] else 0
  {
    if s != [] {
      FilterCount(s[1..], p);
      assert s == [s[0]] + s[1..];
    }
  }

  /** A filter no row passes leaves nothing. */
  lemma FilterNonePass<T(!new)>(s: seq<T>, p: T -> bool)
    requires forall i | 0 <= i < |s| :: !p(s[i])
    ensures Filter(s, p) == []
  {
  }

  /** A filter only removes rows: the survivors keep their relative order. */
  lemma {:induction false} FilterIsSubsequence<T(!new)>(s: seq<T>, p: T -> bool)
    ensures IsSubsequence(Filter(s, p), s)
  {
    if s != [] {
      FilterIsSubsequence(s[1..], p);
      var r := Filter(s, p);
      if p(s[0]) {
        assert r[0] == s[0] && r[1..] == Filter(s[1..], p);
      } else {
        assert r == Filter(s[1..], p);
      }
    }
  }

  /** Filtering distributes over concatenation. */
  lemma {:induction false} FilterAppend<T(!new)>(a: seq<T>, b: seq<T>, p: T -> bool)
    ensures Filter(a + b, p) == Filter(a, p) + Filter(b, p)
  {
    if a == [] {
      assert a + b == b;
    } else {
      assert (a + b)[1..] == a[1..] + b;
      FilterAppend(a[1..], b, p);
      var rest := Filter(a[1..], p) + Filter(b, p);
      if p(a[0]) {
        calc {
          Filter(a + b, p);
          [a[0]] + Filter(a[1..] + b, p);
          [a[0]] + rest;
          ([a[0]] + Filter(a[1..], p)) + Filter(b, p);
        }
      } else {
        assert Filter(a + b, p) == Filter(a[1..] + b, p);
      }
    }
  }

  /** Two filters in a row keep the rows passing both. */
  lemma {:induction false} FilterFilter<T(!new)>(s: seq<T>, p: T -> bool, q: T -> bool, both: T -> bool)
    requires forall x :: both(x) == (p(x) && q(x))
    ensures Filter(Filter(s, p), q) == Filter(s, both)
  {
    if s != [] {
      FilterFilter(s[1..], p, q, both);
      if p(s[0]) {
        assert Filter(s, p) == [s[0]] + Filter(s[1..], p);
        assert Filter(s, p)[1..] == Filter(s[1..], p);
      }
    }
  }

  /** `df.head(n)`: the first `n` rows, or for a negative `n` every row
      but the last `-n`. */
  function Head<T>(s: seq<T>, n: int): (r: seq<T>)
    ensures |r| <= |s| && r == s[..|r|]
    ensures 0 <= n ==> |r| == if n < |s| then n else |s|
    ensures n < 0 ==> |r| == if -n < |s| then |s| + n else 0
  {
    if 0 <= n then (if n < |s| then s[..n] else s)
    else if -n < |s| then s[..|s| + n] else []
  }

  /** Rows are in non-increasing order of `key`. */
  ghost predicate SortedDesc<T>(s: seq<T>, key: T -> real)
  {
    forall i, j | 0 <= i < j < |s| :: key(s[i]) >= key(s[j])
  }

  /** The first rows of a sequence keep what holds of every row and its
      order. */
  lemma HeadKeeps<T>(s: seq<T>, n: int, p: T -> bool, key: T -> real)
    requires forall i | 0 <= i < |s| :: p(s[i])
    requires SortedDesc(s, key)
    ensures var h := Head(s, n);
      (forall i | 0 <= i < |h| :: p(h[i])) && SortedDesc(h, key)
  {
    var h := Head(s, n);
    assert forall i | 0 <= i < |h| :: h[i] == s[i];
  }

  /** Appending `f` of the next element to the images of the elements
      before it gives the images of one more element. */
  lemma AppendMapped<A, B>(out: seq<B>, xs: seq<A>, f: A -> B, i: nat)
    requires i < |xs| && |out| == i
    requires forall j | 0 <= j < i :: out[j] == f(xs[j])
    ensures forall j | 0 <= j < i + 1 :: (out + [f(xs[i])])[j] == f(xs[j])
  {
    var next := out + [f(xs[i])];
    assert forall j | 0 <= j < i :: next[j] == out[j];
  }

  /** Places `x` in front of the first row whose key is not above its own. */
  function Insert<T>(x: T, s: seq<T>, key: T -> real): (r: seq<T>)
    requires SortedDesc(s, key)
    ensures SortedDesc(r, key)
    ensures multiset(r) == multiset{x} + multiset(s)
    ensures forall i | 0 <= i < |r| :: r[i] == x || r[i] in s
  {
    if s == [] || key(x) >= key(s[0]) then [x] + s
    else
      var tail := Insert(x, s[1..], key);
      InsertBelowHead(x, s, tail, key);
      [s[0]] + tail
  }

  /** Every row of the tail `Insert` builds behind the first row sits no
      higher than it, and the first row in front of that tail gives back
      `s` with `x` added. */
  lemma InsertBelowHead<T>(x: T, s: seq<T>, tail: seq<T>, key: T -> real)
    requires s != [] && key(x) < key(s[0]) && SortedDesc(s, key)
    requires multiset(tail) == multiset{x} + multiset(s[1..])
    requires forall i | 0 <= i < |tail| :: tail[i] == x || tail[i] in s[1..]
    requires SortedDesc(tail, key)
    ensures SortedDesc([s[0]] + tail, key)
    ensures multiset([s[0]] + tail) == multiset{x} + multiset(s)
  {
    forall i | 0 <= i < |tail| ensures key(s[0]) >= key(tail[i]) {
      if tail[i] != x {
        var k :| 0 <= k < |s[1..]| && s[1..][k] == tail[i];
        assert s[k + 1] == tail[i];
      }
    }
    assert s == [s[0]] + s[1..];
  }

  /** `sort_values(key, ascending=False)`, as a stable insertion sort. */
  function SortDesc<T>(s: seq<T>, key: T -> real): (r: seq<T>)
    ensures SortedDesc(r, key)
    ensures multiset(r) == multiset(s)
  {
    if s == [] then []
    else
      assert s == [s[0]] + s[1..];
      Insert(s[0], SortDesc(s[1..], key), key)
  }

  /** Sorting rows that are already in order leaves them as they are. */
  lemma {:induction false} SortDescOfSorted<T>(s: seq<T>, key: T -> real)
    requires SortedDesc(s, key)
    ensures SortDesc(s, key) == s
  {
    if s != [] {
      SortDescOfSorted(s[1..], key);
      assert [s[0]] + s[1..] == s;
    }
  }

  /** Removing rows from a sorted table leaves it sorted. */
  lemma {:induction false} FilterKeepsSorted<T(!new)>(s: seq<T>, p: T -> bool, key: T -> real)
    requires SortedDesc(s, key)
    ensures SortedDesc(Filter(s, p), key)
  {
    if s != [] {
      FilterKeepsSorted(s[1..], p, key);
      var tail := Filter(s[1..], p);
      FilterMembers(s[1..], p);
      forall i | 0 <= i < |tail| ensures key(s[0]) >= key(tail[i]) {
        var k :| 0 <= k < |s[1..]| && s[1..][k] == tail[i];
        assert s[k + 1] == tail[i];
      }
    }
  }

  /** A value at two positions of a sequence occurs at least twice in it. */
  lemma TwiceCounted<T>(s: seq<T>, i: nat, j: nat)
    requires i < j < |s| && s[i] == s[j]
    ensures multiset(s)[s[i]] >= 2
  {
    assert s == s[..j] + s[j..];
    assert s[i] == s[..j][i];
    assert s[j] == s[j..][0];
  }

  /** `key(x) == k`, as a filter mask. */
  function KeyIs<T, K(==)>(key: T -> K, k: K): T -> bool {
    (x: T) => key(x) == k
  }

  /** No value occurs twice. */
  predicate NoDuplicates<K(==)>(order: seq<K>) {
    forall i, j | 0 <= i < j < |order| :: order[i] != order[j]
  }

  /** The rows whose key is `order[0]`, then those whose key is `order[1]`,
      and so on; within a block the input order is kept. */
  function Blocks<T(!new), K(==)>(s: seq<T>, key: T -> K, order: seq<K>): (r: seq<T>)
    ensures forall i | 0 <= i < |r| :: key(r[i]) in order
  {
    if order == [] then []
    else Filter(s, KeyIs(key, order[0])) + Blocks(s, key, order[1..])
  }

  /** Every row the mask `KeyIs(key, k)` keeps has key `k`. */
  lemma FilterKeyIs<T(!new), K>(s: seq<T>, key: T -> K, k: K)
    ensures var f := Filter(s, KeyIs(key, k));
      forall i | 0 <= i < |f| :: key(f[i]) == k
  {
    var f := Filter(s, KeyIs(key, k));
    forall i | 0 <= i < |f| ensures key(f[i]) == k {
      assert KeyIs(key, k)(f[i]);
    }
  }

  /** The rows come in increasing rank of their keys. */
  ghost predicate Ranked<T, K>(r: seq<T>, key: T -> K, rank: K -> int) {
    forall i, j | 0 <= i < j < |r| :: rank(key(r[i])) <= rank(key(r[j]))
  }

  /** Two runs each in rank order, every rank of the first at most every
      rank of the second, are in rank order together. */
  lemma ConcatRanked<T, K>(a: seq<T>, b: seq<T>, key: T -> K, rank: K -> int)
    requires Ranked(a, key, rank) && Ranked(b, key, rank)
    requires forall i, j | 0 <= i < |a| && 0 <= j < |b| :: rank(key(a[i])) <= rank(key(b[j]))
    ensures Ranked(a + b, key, rank)
  {
    var r := a + b;
    forall i, j | 0 <= i < j < |r| ensures rank(key(r[i])) <= rank(key(r[j])) {
      if j < |a| {
        assert r[i] == a[i] && r[j] == a[j];
      } else if i < |a| {
        assert r[i] == a[i] && r[j] == b[j - |a|];
      } else {
        assert r[i] == b[i - |a|] && r[j] == b[j - |a|];
      }
    }
  }

  /** When the order is increasing in rank, so is the block sequence. */
  lemma {:induction false} BlocksRanked<T(!new), K>(s: seq<T>, key: T -> K, order: seq<K>, rank: K -> int)
    requires forall m, n | 0 <= m < n < |order| :: rank(order[m]) <= rank(order[n])
    ensures Ranked(Blocks(s, key, order), key, rank)
  {
    if order != [] {
      var head := Filter(s, KeyIs(key, order[0]));
      var rest := Blocks(s, key, order[1..]);
      assert forall i | 0 <= i < |head| :: key(head[i]) == order[0] by {
        FilterKeyIs(s, key, order[0]);
      }
      assert Ranked(head, key, rank) by {
        forall i, j | 0 <= i < j < |head| ensures rank(key(head[i])) <= rank(key(head[j])) {
          assert key(head[i]) == order[0] == key(head[j]);
        }
      }
      assert Ranked(rest, key, rank) by {
        var tail := order[1..];
        forall m, n | 0 <= m < n < |tail| ensures rank(tail[m]) <= rank(tail[n]) {
          assert tail[m] == order[m + 1] && tail[n] == order[n + 1];
        }
        BlocksRanked(s, key, tail, rank);
      }
      forall i, j | 0 <= i < |head| && 0 <= j < |rest| ensures rank(key(head[i])) <= rank(key(rest[j])) {
        var n :| 0 <= n < |order[1..]| && order[1..][n] == key(rest[j]);
        assert order[n + 1] == key(rest[j]);
      }
      ConcatRanked(head, rest, key, rank);
    }
  }

  /** Over keys without repeats, a row occurs in the blocks as often as in
      the input when its key is among them, and not at all otherwise. */
  lemma {:induction false} BlocksCount<T(!new), K>(s: seq<T>, key: T -> K, order: seq<K>, x: T)
    requires NoDuplicates(order)
    ensures multiset(Blocks(s, key, order))[x] == if key(x) in order then multiset(s)[x] else 0
  {
    if order != [] {
      BlocksCount(s, key, order[1..], x);
      FilterCount(s, KeyIs(key, order[0]));
      assert key(x) in order <==> key(x) == order[0] || key(x) in order[1..];
      if key(x) == order[0] {
        NotInTail(order);
      }
    }
  }

  /** In a sequence without repeats the first value does not recur. */
  lemma NotInTail<K>(order: seq<K>)
    requires order != [] && NoDuplicates(order)
    ensures order[0] !in order[1..]
  {
    forall n | 0 <= n < |order| - 1 ensures order[1..][n] != order[0] {
      assert order[1..][n] == order[n + 1];
    }
  }

  /** Over keys without repeats, picking one key's rows out of the blocks
      gives the input rows with that key in input order, or nothing when the
      key is not among them. */
  lemma {:induction false} BlocksFilter<T(!new), K>(s: seq<T>, key: T -> K, order: seq<K>, k: K)
    requires NoDuplicates(order)
    ensures Filter(Blocks(s, key, order), KeyIs(key, k)) == if k in order then Filter(s, KeyIs(key, k)) else []
  {
    if order == [] {
    } else {
      var head := Filter(s, KeyIs(key, order[0]));
      var rest := Blocks(s, key, order[1..]);
      FilterAppend(head, rest, KeyIs(key, k));
      assert NoDuplicates(order[1..]) by {
        forall i, j | 0 <= i < j < |order| - 1 ensures order[1..][i] != order[1..][j] {
          assert order[1..][i] == order[i + 1] && order[1..][j] == order[j + 1];
        }
      }
      BlocksFilter(s, key, order[1..], k);
      FilterKeyIs(s, key, order[0]);
      if order[0] == k {
        NotInTail(order);
        assert Filter(head, KeyIs(key, k)) == head by {
          assert forall i | 0 <= i < |head| :: KeyIs(key, k)(head[i]);
        }
      } else {
        assert Filter(head, KeyIs(key, k)) == [] by {
          FilterNonePass(head, KeyIs(key, k));
        }
      }
    }
  }
}
