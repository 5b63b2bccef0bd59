/**
 * Stable sorting, as the engine relies on it twice: pandas' multi-column
 * `sort_values` (used by the ranker) and Python's `list.sort` (used on the
 * feasible combos) both keep equal-key elements in their input order.
 *
 * A stable sort of `s` by a key is modelled as a sort of the POSITIONS of `s`
 * by (key, position): two positions with equal keys are ordered by where they
 * stood in the input. That order is strict and total, so the sorted sequence
 * of positions is unique (OrderUnique), and it is exactly the order a stable
 * sort produces.
 */
module StableSort {
  import opened Seqs

  /** A sort key, compared lexicographically; smaller keys come first. */
  datatype Key = Key(major: int, middle: int, minor: int)

  predicate KeyLess(x: Key, y: Key)
  {
    || x.major < y.major
    || (x.major == y.major && x.middle < y.middle)
    || (x.major == y.major && x.middle == y.middle && x.minor < y.minor)
  }

  /** In a stable sort, position i stands before position j exactly when its
      key is smaller, or the keys are equal and i came first in the input. */
  predicate Precedes(keys: seq<Key>, i: nat, j: nat)
  {
    && i < |keys| && j < |keys|
    && (KeyLess(keys[i], keys[j]) || (keys[i] == keys[j] && i < j))
  }

  /** The positions 0 .. n-1, in input order. */
  function Range(n: nat): (r: seq<nat>)
    ensures |r| == n
    ensures forall k :: 0 <= k < n ==> r[k] == k
  {
    if n == 0 then [] else Range(n - 1) + [n - 1]
  }

  /** Every entry of `p` is a position of a sequence of length n. */
  predicate InBounds(p: seq<nat>, n: nat)
  {
    forall k :: 0 <= k < |p| ==> p[k] < n
  }

  /** `p` lists positions of `keys` in stable-sorted order. */
  ghost predicate Ordered(keys: seq<Key>, p: seq<nat>)
  {
    && InBounds(p, |keys|)
    && (forall a, b :: 0 <= a < b < |p| ==> Precedes(keys, p[a], p[b]))
  }

  /** The elements of `s` at the positions `p`, in the order of `p`. */
  function Apply<T>(s: seq<T>, p: seq<nat>): (r: seq<T>)
    requires InBounds(p, |s|)
    ensures |r| == |p|
    ensures forall k :: 0 <= k < |p| ==> r[k] == s[p[k]]
  {
    seq(|p|, k requires 0 <= k < |p| => s[p[k]])
  }

  lemma PrecedesTransitive(keys: seq<Key>, i: nat, j: nat, k: nat)
    requires Precedes(keys, i, j) && Precedes(keys, j, k)
    ensures Precedes(keys, i, k)
  {
  }

  lemma PrecedesTotal(keys: seq<Key>, i: nat, j: nat)
    requires i < |keys| && j < |keys| && i != j
    ensures Precedes(keys, i, j) != Precedes(keys, j, i)
  {
  }

  /** Inserts position i into `sorted`, in front of the first position it
      precedes. */
  function Insert(keys: seq<Key>, i: nat, sorted: seq<nat>): (r: seq<nat>)
    ensures |r| == |sorted| + 1
    ensures multiset(r) == multiset(sorted) + multiset{i}
  {
    if sorted == [] then [i]
    else if Precedes(keys, i, sorted[0]) then [i] + sorted
    else
      assert sorted == [sorted[0]] + sorted[1..];
      [sorted[0]] + Insert(keys, i, sorted[1..])
  }

  /** Insertion keeps positions in stable-sorted order. */
  lemma {:induction false} InsertOrdered(keys: seq<Key>, i: nat, sorted: seq<nat>)
    requires i < |keys| && i !in sorted
    requires Ordered(keys, sorted)
    ensures Ordered(keys, Insert(keys, i, sorted))
  {
    if sorted == [] {
    } else if Precedes(keys, i, sorted[0]) {
      InsertFrontOrdered(keys, i, sorted);
    } else {
      assert sorted == [sorted[0]] + sorted[1..];
      InsertOrdered(keys, i, sorted[1..]);
      PrecedesTotal(keys, i, sorted[0]);
      InsertBehindOrdered(keys, sorted[0], sorted[1..], Insert(keys, i, sorted[1..]), i);
    }
  }

  lemma InsertFrontOrdered(keys: seq<Key>, i: nat, sorted: seq<nat>)
    requires sorted != [] && Ordered(keys, sorted) && Precedes(keys, i, sorted[0])
    ensures Ordered(keys, [i] + sorted)
  {
    var r := [i] + sorted;
    forall a, b | 0 <= a < b < |r|
      ensures Precedes(keys, r[a], r[b])
    {
      if a == 0 && b > 1 {
        PrecedesTransitive(keys, i, sorted[0], sorted[b - 1]);
      }
    }
  }

  lemma InsertBehindOrdered(keys: seq<Key>, h: nat, tail: seq<nat>, rest: seq<nat>, i: nat)
    requires Ordered(keys, [h] + tail) && Ordered(keys, rest)
    requires multiset(rest) == multiset(tail) + multiset{i}
    requires Precedes(keys, h, i)
    ensures Ordered(keys, [h] + rest)
  {
    var whole := [h] + tail;
    var r := [h] + rest;
    forall a, b | 0 <= a < b < |r|
      ensures Precedes(keys, r[a], r[b])
    {
      if a == 0 {
        var y := rest[b - 1];
        assert y in multiset(rest);
        if y != i {
          assert y in tail;
          var c :| 0 <= c < |tail| && tail[c] == y;
          assert whole[0] == h && whole[c + 1] == y;
        }
      }
    }
  }

  /** Positions 0 .. n-1 of `keys`, stable-sorted by insertion. */
  function Order(keys: seq<Key>, n: nat): (r: seq<nat>)
    requires n <= |keys|
    ensures |r| == n
    ensures InBounds(r, n)
  {
    if n == 0 then []
    else
      var i := n - 1;
      var sorted := Order(keys, i);
      var r := Insert(keys, i, sorted);
      InsertInBoundsOf(sorted, i, r, n);
      r
  }

  lemma {:induction false} OrderOrdered(keys: seq<Key>, n: nat)
    requires n <= |keys|
    ensures Ordered(keys, Order(keys, n))
  {
    if n > 0 {
      var i := n - 1;
      var sorted := Order(keys, i);
      OrderOrdered(keys, i);
      InsertOrdered(keys, i, sorted);
    }
  }

  /** The stable-sorted positions of the whole of `keys`. */
  function SortedPositions(keys: seq<Key>): (r: seq<nat>)
    ensures |r| == |keys|
    ensures InBounds(r, |keys|)
    ensures Ordered(keys, r)
  {
    OrderOrdered(keys, |keys|);
    Order(keys, |keys|)
  }

  /** Two stable-sorted arrangements of the same positions start alike. */
  lemma HeadsAgree(keys: seq<Key>, p: seq<nat>, q: seq<nat>)
    requires p != [] && q != []
    requires Ordered(keys, p) && Ordered(keys, q)
    requires multiset(p) == multiset(q)
    ensures p[0] == q[0]
  {
    if p[0] != q[0] {
      var j := MemberAt(q, p[0]);
      var i := MemberAt(p, q[0]);
      assert Precedes(keys, q[0], q[j]) && Precedes(keys, p[0], p[i]);
      PrecedesTotal(keys, p[0], q[0]);
    }
  }

  /** Two stable-sorted arrangements of the same positions are one and the
      same: the stable order is determined by the keys alone. */
  lemma {:induction false} OrderUnique(keys: seq<Key>, p: seq<nat>, q: seq<nat>)
    requires Ordered(keys, p) && Ordered(keys, q)
    requires multiset(p) == multiset(q)
    ensures p == q
    decreases |p|
  {
    assert |q| == |multiset(q)| == |multiset(p)| == |p|;
    if p != [] {
      HeadsAgree(keys, p, q);
      MultisetTail(p);
      MultisetTail(q);
      OrderUnique(keys, p[1..], q[1..]);
      assert p == [p[0]] + p[1..] && q == [q[0]] + q[1..];
    }
  }

  lemma InsertInBoundsOf(sorted: seq<nat>, i: nat, r: seq<nat>, n: nat)
    requires InBounds(sorted, n) && i < n
    requires multiset(r) == multiset(sorted) + multiset{i}
    ensures InBounds(r, n)
  {
    forall k | 0 <= k < |r|
      ensures r[k] < n
    {
      assert r[k] in multiset(r);
      if r[k] != i {
        var j := MemberAt(sorted, r[k]);
      }
    }
  }

  lemma ApplyCons<T>(s: seq<T>, x: nat, p: seq<nat>)
    requires x < |s| && InBounds(p, |s|)
    ensures InBounds([x] + p, |s|)
    ensures multiset(Apply(s, [x] + p)) == multiset{s[x]} + multiset(Apply(s, p))
  {
    assert Apply(s, [x] + p) == [s[x]] + Apply(s, p);
  }

  /** Inserting position i adds exactly the element s[i]. */
  lemma {:induction false} ApplyInsert<T>(s: seq<T>, keys: seq<Key>, i: nat, sorted: seq<nat>)
    requires i < |s| && InBounds(sorted, |s|)
    ensures InBounds(Insert(keys, i, sorted), |s|)
    ensures multiset(Apply(s, Insert(keys, i, sorted))) == multiset(Apply(s, sorted)) + multiset{s[i]}
    decreases |sorted|
  {
    InsertInBoundsOf(sorted, i, Insert(keys, i, sorted), |s|);
    if sorted == [] {
      assert Apply(s, [i]) == [s[i]];
    } else if Precedes(keys, i, sorted[0]) {
      ApplyCons(s, i, sorted);
    } else {
      var h, tail := sorted[0], sorted[1..];
      assert sorted == [h] + tail;
      ApplyInsert(s, keys, i, tail);
      ApplyCons(s, h, Insert(keys, i, tail));
      ApplyCons(s, h, tail);
    }
  }

  lemma ApplyOrderStep<T>(s: seq<T>, keys: seq<Key>, n: nat)
    requires |keys| == |s| && 0 < n <= |s|
    ensures multiset(Apply(s, Order(keys, n))) == multiset(Apply(s, Order(keys, n - 1))) + multiset{s[n - 1]}
  {
    var i := n - 1;
    var sorted := Order(keys, i);
    assert Order(keys, n) == Insert(keys, i, sorted);
    ApplyInsert(s, keys, i, sorted);
  }

  lemma PrefixSnoc<T>(s: seq<T>, n: nat)
    requires 0 < n <= |s|
    ensures multiset(s[..n]) == multiset(s[..n - 1]) + multiset{s[n - 1]}
  {
    assert s[..n] == s[..n - 1] + [s[n - 1]];
  }

  /** The elements at the sorted positions 0 .. n-1 are a permutation of s[..n]. */
  lemma {:induction false} ApplyOrder<T>(s: seq<T>, keys: seq<Key>, n: nat)
    requires |keys| == |s| && n <= |s|
    ensures multiset(Apply(s, Order(keys, n))) == multiset(s[..n])
  {
    if n == 0 {
      assert Apply(s, Order(keys, 0)) == [];
    } else {
      var i := n - 1;
      ApplyOrderStep(s, keys, n);
      ApplyOrder(s, keys, i);
      PrefixSnoc(s, n);
    }
  }

  /** The elements at the stable-sorted positions are a permutation of `s`. */
  lemma SortedIsPermutation<T>(s: seq<T>, keys: seq<Key>)
    requires |keys| == |s|
    ensures multiset(Apply(s, SortedPositions(keys))) == multiset(s)
  {
    ApplyOrder(s, keys, |s|);
    assert s[..|s|] == s;
  }

  /** No position is listed twice: the stable order is strict. */
  lemma SortedPositionsDistinct(keys: seq<Key>)
    ensures var p := SortedPositions(keys);
      forall k, l :: 0 <= k < l < |p| ==> p[k] != p[l]
  {
    var p := SortedPositions(keys);
    forall k, l | 0 <= k < l < |p|
      ensures p[k] != p[l]
    {
      assert Precedes(keys, p[k], p[l]);
    }
  }

  /** The stable-sorted positions are a permutation of 0 .. |keys|-1. */
  lemma SortedPositionsPermutation(keys: seq<Key>)
    ensures multiset(SortedPositions(keys)) == multiset(Range(|keys|))
  {
    var n := |keys|;
    var p := SortedPositions(keys);
    ApplyOrder(Range(n), keys, n);
    assert Apply(Range(n), p) == p;
    assert Range(n)[..n] == Range(n);
  }

}
