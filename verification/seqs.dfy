/** Small sequence helpers shared by the LINQ-shaped operations of the model. */
module Seqs {
  import opened Wrappers

  /** `Where`: the elements of `s` satisfying `p`, in their original order. */
  function Filter<T>(s: seq<T>, p: T -> bool): (r: seq<T>)
    ensures |r| <= |s|
    ensures forall i :: 0 <= i < |r| ==> r[i] in s && p(r[i])
    ensures forall i :: 0 <= i < |s| && p(s[i]) ==> s[i] in r
  {
    if s == [] then []
    else if p(s[0]) then [s[0]] + Filter(s[1..], p)
    else Filter(s[1..], p)
  }

  lemma FilterAppend<T>(a: seq<T>, b: seq<T>, p: T -> bool)
    ensures Filter(a + b, p) == Filter(a, p) + Filter(b, p)
  {
    if a == [] {
      assert a + b == b;
    } else {
      assert (a + b)[1..] == a[1..] + b;
      FilterAppend(a[1..], b, p);
    }
  }

  /** Filtering keeps every occurrence of a selected element and none of the others. */
  lemma {:induction false} FilterMultiplicity<T>(s: seq<T>, p: T -> bool, x: T)
    ensures multiset(Filter(s, p))[x] == if p(x) then multiset(s)[x] else 0
  {
    if s != [] {
      assert s == [s[0]] + s[1..];
      FilterMultiplicity(s[1..], p, x);
    }
  }

  /** `FirstOrDefault(p)`: the first element satisfying `p`, if any. */
  function First<T>(s: seq<T>, p: T -> bool): (r: Option<T>)
    ensures r.Some? <==> exists i :: 0 <= i < |s| && p(s[i])
    ensures r.Some? ==> r.value in s && p(r.value)
  {
    if s == [] then None
    else if p(s[0]) then Some(s[0])
    else
      var r := First(s[1..], p);
      assert forall i :: 1 <= i < |s| ==> s[i] == s[1..][i - 1];
      r
  }

  /** Number of elements satisfying `p`. */
  function Count<T>(s: seq<T>, p: T -> bool): (n: nat)
    ensures n == |Filter(s, p)|
  {
    if s == [] then 0
    else (if p(s[0]) then 1 else 0) + Count(s[1..], p)
  }

  /** No element occurs twice. */
  predicate Distinct<T(==)>(s: seq<T>) {
    forall i, j :: 0 <= i < j < |s| ==> s[i] != s[j]
  }

  /** Filtering keeps distinct elements distinct. */
  lemma {:induction false} FilterDistinct<T>(s: seq<T>, p: T -> bool)
    requires Distinct(s)
    ensures Distinct(Filter(s, p))
  {
    if s != [] {
      var t := s[1..];
      assert Distinct(t) by {
        forall i, j | 0 <= i < j < |t| ensures t[i] != t[j] {
          assert t[i] == s[i + 1] && t[j] == s[j + 1];
        }
      }
      FilterDistinct(t, p);
      assert s[0] !in t by {
        forall i | 0 <= i < |t| ensures t[i] != s[0] {
          assert t[i] == s[i + 1];
        }
      }
    }
  }

  /** No two elements share a key: `key` identifies the elements of `s`. */
  predicate KeysUnique<T, K(==)>(s: seq<T>, key: T -> K) {
    forall i, j :: 0 <= i < j < |s| ==> key(s[i]) != key(s[j])
  }

  /** Under unique keys, an element is determined by its key. */
  lemma KeysUniqueMember<T, K>(s: seq<T>, key: T -> K, a: T, b: T)
    requires KeysUnique(s, key) && a in s && b in s && key(a) == key(b)
    ensures a == b
  {
    var i :| 0 <= i < |s| && s[i] == a;
    var j :| 0 <= j < |s| && s[j] == b;
    if i != j {
      assert false;
    }
  }

  /** A sequence with unique keys holds at most one element of a given key. */
  lemma KeysUniqueOneKey<T, K>(s: seq<T>, key: T -> K, k: K)
    requires KeysUnique(s, key) && forall x :: x in s ==> key(x) == k
    ensures |s| <= 1
  {
    if |s| > 1 {
      KeysUniqueMember(s, key, s[0], s[1]);
    }
  }

  /** Dropping the head keeps keys unique, and the head's key is not among the rest. */
  lemma KeysUniqueTail<T, K>(s: seq<T>, key: T -> K)
    requires KeysUnique(s, key) && s != []
    ensures KeysUnique(s[1..], key)
    ensures forall x :: x in s[1..] ==> key(x) != key(s[0])
  {
    var t := s[1..];
    forall i, j | 0 <= i < j < |t| ensures key(t[i]) != key(t[j]) {
      assert t[i] == s[i + 1] && t[j] == s[j + 1];
    }
    forall x | x in t ensures key(x) != key(s[0]) {
      var k :| 0 <= k < |t| && t[k] == x;
      assert x == s[k + 1];
    }
  }

  /** Two different members make a sequence at least two long. */
  lemma TwoMembers<T>(s: seq<T>, a: T, b: T)
    requires a in s && b in s && a != b
    ensures |s| >= 2
  {
  }

  /** Filtering keeps keys unique. */
  lemma {:induction false} FilterKeysUnique<T, K>(s: seq<T>, p: T -> bool, key: T -> K)
    requires KeysUnique(s, key)
    ensures KeysUnique(Filter(s, p), key)
  {
    if s != [] {
      var t := s[1..];
      assert KeysUnique(t, key) by {
        forall i, j | 0 <= i < j < |t| ensures key(t[i]) != key(t[j]) {
          assert t[i] == s[i + 1] && t[j] == s[j + 1];
        }
      }
      FilterKeysUnique(t, p, key);
      forall x | x in t ensures key(x) != key(s[0]) {
        var k :| 0 <= k < |t| && t[k] == x;
        assert x == s[k + 1];
      }
    }
  }

  /** Two filters in a row are one filter by the conjunction. */
  lemma {:induction false} FilterFilter<T>(s: seq<T>, p: T -> bool, q: T -> bool, pq: T -> bool)
    requires forall x :: x in s ==> (pq(x) <==> p(x) && q(x))
    ensures Filter(Filter(s, p), q) == Filter(s, pq)
  {
    if s != [] {
      FilterFilter(s[1..], p, q, pq);
    }
  }

  /** Filters by predicates that agree on the elements are equal. */
  lemma {:induction false} FilterExt<T>(s: seq<T>, p: T -> bool, q: T -> bool)
    requires forall x :: x in s ==> (p(x) <==> q(x))
    ensures Filter(s, p) == Filter(s, q)
  {
    if s != [] {
      FilterExt(s[1..], p, q);
    }
  }

  /**
   * The keys of `Where(p).GroupBy(key)`, in order of first appearance: each
   * key once, and exactly the keys of the selected elements.
   */
  function GroupKeys<T, K(==,!new)>(s: seq<T>, p: T -> bool, key: T -> K): (r: seq<K>)
    ensures Distinct(r)
    ensures forall k :: k in r ==> exists i :: 0 <= i < |s| && p(s[i]) && key(s[i]) == k
    ensures forall i :: 0 <= i < |s| && p(s[i]) ==> key(s[i]) in r
  {
    if s == [] then []
    else
      var rest := GroupKeys(s[1..], p, key);
      if !p(s[0]) then rest
      else
        var k := key(s[0]);
        FilterDistinct(rest, (x: K) => x != k);
        [k] + Filter(rest, (x: K) => x != k)
  }
}
