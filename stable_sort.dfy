/** A stable sort by key, as `Arrays.sort` and `List.sort` perform it with a
    comparator: the reference definition is insertion sort, which places each
    element after every earlier element whose key is not greater.  The lemmas
    show that the result is ordered, is a permutation of the input, and keeps
    elements of equal key in their original order. */
module StableSort {

  /** `le` is a total preorder: any two keys compare, and comparison chains. */
  ghost predicate TotalPreorder<K(!new)>(le: (K, K) -> bool)
  {
    && (forall a, b :: le(a, b) || le(b, a))
    && (forall a, b, c :: le(a, b) && le(b, c) ==> le(a, c))
  }

  /** Inserts `x` into `s` from the back: it lands after the last element whose
      key is at most its own. */
  function Insert<T, K>(s: seq<T>, x: T, key: T -> K, le: (K, K) -> bool): (r: seq<T>)
    ensures |r| == |s| + 1
  {
    if s == [] then [x]
    else if le(key(s[|s| - 1]), key(x)) then s + [x]
    else Insert(s[..|s| - 1], x, key, le) + [s[|s| - 1]]
  }

  /** Insertion sort: each element in turn is inserted into the sorted prefix. */
  function Sort<T, K>(s: seq<T>, key: T -> K, le: (K, K) -> bool): (r: seq<T>)
    ensures |r| == |s|
  {
    if s == [] then [] else Insert(Sort(s[..|s| - 1], key, le), s[|s| - 1], key, le)
  }

  ghost predicate Sorted<T, K>(s: seq<T>, key: T -> K, le: (K, K) -> bool)
  {
    forall i, j :: 0 <= i < j < |s| ==> le(key(s[i]), key(s[j]))
  }

  /** The elements of `s` whose key is `k`, in their order in `s`. */
  function KeyFilter<T, K(==)>(s: seq<T>, key: T -> K, k: K): seq<T>
  {
    if s == [] then []
    else KeyFilter(s[..|s| - 1], key, k) + (if key(s[|s| - 1]) == k then [s[|s| - 1]] else [])
  }

  // ---------------------------------------------------------------------------
  // The two unfolding steps an in-place insertion loop takes.

  /** Shifting: when the element before position `j` is greater than `x`, `x`
      goes in front of it. */
  lemma InsertShift<T, K>(s: seq<T>, x: T, key: T -> K, le: (K, K) -> bool, j: nat)
    requires 0 < j <= |s| && !le(key(s[j - 1]), key(x))
    ensures Insert(s[..j], x, key, le) == Insert(s[..j - 1], x, key, le) + [s[j - 1]]
  {
    assert s[..j][..j - 1] == s[..j - 1];
  }

  /** Stopping: when the element before position `j` is not greater than `x`
      (or there is none), `x` goes right there. */
  lemma InsertStop<T, K>(s: seq<T>, x: T, key: T -> K, le: (K, K) -> bool, j: nat)
    requires j <= |s| && (j == 0 || le(key(s[j - 1]), key(x)))
    ensures Insert(s[..j], x, key, le) == s[..j] + [x]
  {
  }

  // ---------------------------------------------------------------------------
  // Permutation

  lemma {:induction false} InsertPermutes<T, K>(s: seq<T>, x: T, key: T -> K, le: (K, K) -> bool)
    ensures multiset(Insert(s, x, key, le)) == multiset(s) + multiset{x}
  {
    if s != [] && !le(key(s[|s| - 1]), key(x)) {
      InsertPermutes(s[..|s| - 1], x, key, le);
      assert s == s[..|s| - 1] + [s[|s| - 1]];
    }
  }

  /** The sorted sequence holds exactly the input's elements. */
  lemma {:induction false} SortPermutes<T, K>(s: seq<T>, key: T -> K, le: (K, K) -> bool)
    ensures multiset(Sort(s, key, le)) == multiset(s)
  {
    if s != [] {
      SortPermutes(s[..|s| - 1], key, le);
      InsertPermutes(Sort(s[..|s| - 1], key, le), s[|s| - 1], key, le);
      assert s == s[..|s| - 1] + [s[|s| - 1]];
    }
  }

  // ---------------------------------------------------------------------------
  // Order

  lemma {:induction false} InsertSorted<T, K(!new)>(s: seq<T>, x: T, key: T -> K, le: (K, K) -> bool)
    requires TotalPreorder(le) && Sorted(s, key, le)
    ensures Sorted(Insert(s, x, key, le), key, le)
  {
    if s == [] {
    } else if le(key(s[|s| - 1]), key(x)) {
      var r := s + [x];
      forall i, j | 0 <= i < j < |r| ensures le(key(r[i]), key(r[j])) {
        if j == |s| && i < |s| - 1 {
          assert le(key(s[i]), key(s[|s| - 1]));
        }
      }
    } else {
      var last := s[|s| - 1];
      var init := s[..|s| - 1];
      var ins := Insert(init, x, key, le);
      InsertSorted(init, x, key, le);
      InsertPermutes(init, x, key, le);
      assert le(key(x), key(last));
      var r := ins + [last];
      forall i, j | 0 <= i < j < |r| ensures le(key(r[i]), key(r[j])) {
        if j == |ins| {
          assert r[i] in multiset(ins);
          if r[i] != x {
            assert r[i] in multiset(init);
            var m :| 0 <= m < |init| && init[m] == r[i];
            assert le(key(s[m]), key(s[|s| - 1]));
          }
        } else {
          assert r[i] == ins[i] && r[j] == ins[j];
        }
      }
    }
  }

  /** The result is in non-decreasing key order. */
  lemma {:induction false} SortSorted<T, K(!new)>(s: seq<T>, key: T -> K, le: (K, K) -> bool)
    requires TotalPreorder(le)
    ensures Sorted(Sort(s, key, le), key, le)
  {
    if s != [] {
      SortSorted(s[..|s| - 1], key, le);
      InsertSorted(Sort(s[..|s| - 1], key, le), s[|s| - 1], key, le);
    }
  }

  // ---------------------------------------------------------------------------
  // Stability

  lemma {:induction false} KeyFilterAppend<T, K>(a: seq<T>, b: seq<T>, key: T -> K, k: K)
    ensures KeyFilter(a + b, key, k) == KeyFilter(a, key, k) + KeyFilter(b, key, k)
  {
    if b != [] {
      KeyFilterAppend(a, b[..|b| - 1], key, k);
      assert (a + b)[..|a + b| - 1] == a + b[..|b| - 1];
    } else {
      assert a + b == a;
    }
  }

  lemma {:induction false} InsertStable<T, K(!new)>(s: seq<T>, x: T, key: T -> K, le: (K, K) -> bool, k: K)
    requires TotalPreorder(le)
    ensures KeyFilter(Insert(s, x, key, le), key, k) == KeyFilter(s, key, k) + KeyFilter([x], key, k)
  {
    if s == [] {
      assert KeyFilter([x], key, k) == KeyFilter([], key, k) + (if key(x) == k then [x] else []);
    } else if le(key(s[|s| - 1]), key(x)) {
      KeyFilterAppend(s, [x], key, k);
    } else {
      var last := s[|s| - 1];
      var init := s[..|s| - 1];
      var ins := Insert(init, x, key, le);
      InsertStable(init, x, key, le, k);
      assert (ins + [last])[..|ins + [last]| - 1] == ins;
      assert KeyFilter([x], key, k) == KeyFilter([], key, k) + (if key(x) == k then [x] else []);
      assert le(key(x), key(x));
      assert !(key(x) == k && key(last) == k);
    }
  }

  /** Elements with equal keys keep their relative order. */
  lemma {:induction false} SortStable<T, K(!new)>(s: seq<T>, key: T -> K, le: (K, K) -> bool, k: K)
    requires TotalPreorder(le)
    ensures KeyFilter(Sort(s, key, le), key, k) == KeyFilter(s, key, k)
  {
    if s != [] {
      var init := s[..|s| - 1];
      var last := s[|s| - 1];
      SortStable(init, key, le, k);
      InsertStable(Sort(init, key, le), last, key, le, k);
      assert KeyFilter([last], key, k) == KeyFilter([], key, k) + (if key(last) == k then [last] else []);
    }
  }
}
