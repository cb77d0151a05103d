/**
 * The JavaScript array methods the pages call inline: `Array.prototype.filter`,
 * the `length` of a filtered array, and the stable `Array.prototype.sort` with
 * a comparator that compares a key.
 */
module Collections {

  /** `s.filter(p)`: the elements that satisfy `p`, in their original order. */
  function Filter<T>(s: seq<T>, p: T -> bool): (r: seq<T>)
    ensures |r| <= |s|
    ensures forall i :: 0 <= i < |r| ==> r[i] in s && p(r[i])
    ensures forall i :: 0 <= i < |s| && p(s[i]) ==> s[i] in r
  {
    if s == [] then []
    else
      assert s == [s[0]] + s[1..];
      if p(s[0]) then [s[0]] + Filter(s[1..], p)
      else Filter(s[1..], p)
  }

  /** `s.filter(p).length` */
  function Count<T>(s: seq<T>, p: T -> bool): (n: nat)
    ensures n <= |s|
    ensures n == 0 <==> forall i :: 0 <= i < |s| ==> !p(s[i])
  {
    var r := Filter(s, p);
    assert r != [] ==> r[0] in s && p(r[0]);
    |r|
  }

  /** Filtering distributes over concatenation: this is what "keeps the original order" means. */
  lemma {:induction false} FilterAppend<T>(s: seq<T>, t: seq<T>, p: T -> bool)
    ensures Filter(s + t, p) == Filter(s, p) + Filter(t, p)
  {
    if s == [] {
      assert s + t == t;
    } else {
      assert (s + t)[1..] == s[1..] + t;
      FilterAppend(s[1..], t, p);
    }
  }

  /** Filtering keeps everything exactly when every element passes. */
  lemma {:induction false} FilterAll<T>(s: seq<T>, p: T -> bool)
    ensures Filter(s, p) == s <==> forall i :: 0 <= i < |s| ==> p(s[i])
  {
    if s != [] {
      FilterAll(s[1..], p);
      if !p(s[0]) {
        assert |Filter(s, p)| < |s|;
      }
    }
  }

  /** A second pass of the same filter changes nothing. */
  lemma FilterIdempotent<T>(s: seq<T>, p: T -> bool)
    ensures Filter(Filter(s, p), p) == Filter(s, p)
  {
    FilterAll(Filter(s, p), p);
  }

  /** Every element satisfies exactly one of `p` and its negation. */
  lemma {:induction false} CountComplement<T>(s: seq<T>, p: T -> bool, q: T -> bool)
    requires forall i :: 0 <= i < |s| ==> q(s[i]) == !p(s[i])
    ensures Count(s, p) + Count(s, q) == |s|
  {
    if s != [] {
      CountComplement(s[1..], p, q);
    }
  }

  /** A weaker predicate never counts fewer elements. */
  lemma {:induction false} CountMonotone<T>(s: seq<T>, p: T -> bool, q: T -> bool)
    requires forall i :: 0 <= i < |s| ==> p(s[i]) ==> q(s[i])
    ensures Count(s, p) <= Count(s, q)
  {
    if s != [] {
      CountMonotone(s[1..], p, q);
    }
  }

  /** `le` is a total preorder candidate: any two keys compare one way or the other. */
  ghost predicate Total<K(!new)>(le: (K, K) -> bool)
  {
    forall a, b :: le(a, b) || le(b, a)
  }

  /** `le` chains: the second half of what makes it a total preorder. */
  ghost predicate Transitive<K(!new)>(le: (K, K) -> bool)
  {
    forall a, b, c :: le(a, b) && le(b, c) ==> le(a, c)
  }

  /** Non-decreasing by key: every earlier element is `le` every later one. */
  ghost predicate SortedBy<T, K>(s: seq<T>, key: T -> K, le: (K, K) -> bool)
  {
    forall i, j :: 0 <= i < j < |s| ==> le(key(s[i]), key(s[j]))
  }

  /** The test "has key `k`" as a predicate value. */
  function HasKey<T, K(==)>(key: T -> K, k: K): T -> bool
  {
    x => key(x) == k
  }

  /** The elements of `s` whose key is `k`, in order. */
  function WithKey<T, K(==)>(s: seq<T>, key: T -> K, k: K): seq<T>
  {
    Filter(s, HasKey(key, k))
  }

  /**
   * Places `x` in front of the first element whose key it does not exceed, so
   * that an element inserted later ends up before equal keys: the insertion
   * step of a stable sort that consumes its input from the back.
   */
  function Insert<T, K>(x: T, s: seq<T>, key: T -> K, le: (K, K) -> bool): (r: seq<T>)
    ensures multiset(r) == multiset(s) + multiset{x}
  {
    if s == [] then [x]
    else if le(key(x), key(s[0])) then [x] + s
    else
      assert s == [s[0]] + s[1..];
      [s[0]] + Insert(x, s[1..], key, le)
  }

  /** `[...s].sort((a, b) => cmp(key(a), key(b)))`, a stable sort of a copy. */
  function SortBy<T, K>(s: seq<T>, key: T -> K, le: (K, K) -> bool): (r: seq<T>)
    ensures multiset(r) == multiset(s)
    ensures |r| == |s|
  {
    if s == [] then []
    else
      assert s == [s[0]] + s[1..];
      Insert(s[0], SortBy(s[1..], key, le), key, le)
  }

  /** An element no greater than anything in a sorted sequence may go in front of it. */
  lemma SortedCons<T, K>(a: T, r: seq<T>, key: T -> K, le: (K, K) -> bool)
    requires SortedBy(r, key, le)
    requires forall j :: 0 <= j < |r| ==> le(key(a), key(r[j]))
    ensures SortedBy([a] + r, key, le)
  {
    var ar := [a] + r;
    forall i, j | 0 <= i < j < |ar|
      ensures le(key(ar[i]), key(ar[j]))
    {
      assert ar[j] == r[j - 1];
      if i > 0 {
        assert ar[i] == r[i - 1];
      }
    }
  }

  lemma {:induction false} InsertSorted<T, K(!new)>(x: T, s: seq<T>, key: T -> K, le: (K, K) -> bool)
    requires Total(le) && Transitive(le)
    requires SortedBy(s, key, le)
    ensures SortedBy(Insert(x, s, key, le), key, le)
  {
    if s == [] {
    } else if le(key(x), key(s[0])) {
      forall j | 0 <= j < |s|
        ensures le(key(x), key(s[j]))
      {
        if j > 0 {
          assert le(key(s[0]), key(s[j]));
        }
      }
      SortedCons(x, s, key, le);
    } else {
      var rest := Insert(x, s[1..], key, le);
      InsertSorted(x, s[1..], key, le);
      assert le(key(s[0]), key(x));
      forall j | 0 <= j < |rest|
        ensures le(key(s[0]), key(rest[j]))
      {
        assert rest[j] in multiset(rest);
        if rest[j] != x {
          assert rest[j] in multiset(s[1..]);
          assert rest[j] in s[1..];
        }
      }
      assert SortedBy(s[1..], key, le);
      SortedCons(s[0], rest, key, le);
    }
  }

  /** With a total comparison, the sort yields a non-decreasing sequence. */
  lemma {:induction false} SortBySorted<T, K(!new)>(s: seq<T>, key: T -> K, le: (K, K) -> bool)
    requires Total(le) && Transitive(le)
    ensures SortedBy(SortBy(s, key, le), key, le)
  {
    if s != [] {
      SortBySorted(s[1..], key, le);
      InsertSorted(s[0], SortBy(s[1..], key, le), key, le);
    }
  }

  /** Two elements of which at most one passes may be filtered in either order. */
  lemma FilterSwap<T>(a: T, b: T, p: T -> bool)
    requires !(p(a) && p(b))
    ensures Filter([a], p) + Filter([b], p) == Filter([b], p) + Filter([a], p)
  {
  }

  lemma {:induction false} InsertStable<T, K(!new)>(x: T, s: seq<T>, key: T -> K, le: (K, K) -> bool, k: K)
    requires Total(le)
    ensures WithKey(Insert(x, s, key, le), key, k) == WithKey([x] + s, key, k)
  {
    if s != [] && !le(key(x), key(s[0])) {
      var p := HasKey(key, k);
      var t := s[1..];
      var u := Insert(x, t, key, le);
      assert s == [s[0]] + t;
      assert Insert(x, s, key, le) == [s[0]] + u;
      assert le(key(x), key(x));
      FilterSwap(s[0], x, p);
      FilterAppend([s[0]], u, p);
      InsertStable(x, t, key, le, k);
      FilterAppend([x], t, p);
      FilterAppend([s[0]], t, p);
      FilterAppend([x], s, p);
    }
  }

  /**
   * Stability: among elements with the same key, the sort keeps the original
   * relative order.
   */
  lemma {:induction false} SortByStable<T, K(!new)>(s: seq<T>, key: T -> K, le: (K, K) -> bool, k: K)
    requires Total(le)
    ensures WithKey(SortBy(s, key, le), key, k) == WithKey(s, key, k)
  {
    if s != [] {
      var p := HasKey(key, k);
      SortByStable(s[1..], key, le, k);
      InsertStable(s[0], SortBy(s[1..], key, le), key, le, k);
      FilterAppend([s[0]], SortBy(s[1..], key, le), p);
      FilterAppend([s[0]], s[1..], p);
      assert s == [s[0]] + s[1..];
    }
  }
}
