/**
 * The subsets the search visits (app_final.py:51-52): for each size r,
 * `itertools.combinations(range(m), r)` yields the strictly increasing
 * sequences of r positions below m in lexicographic order.
 */
module Subsets {
  import opened StableSort
  import opened Seqs
  predicate Increasing(ids: seq<nat>)
  {
    forall a, b :: 0 <= a < b < |ids| ==> ids[a] < ids[b]
  }

  predicate AtLeast(ids: seq<nat>, lo: nat)
  {
    forall k :: 0 <= k < |ids| ==> lo <= ids[k]
  }

  function Prefixed(x: nat, css: seq<seq<nat>>): (r: seq<seq<nat>>)
    ensures |r| == |css|
    ensures forall k :: 0 <= k < |css| ==> r[k] == [x] + css[k]
  {
    seq(|css|, k requires 0 <= k < |css| => [x] + css[k])
  }

  lemma ConsIncreasing(x: nat, ids: seq<nat>)
    requires Increasing(ids) && AtLeast(ids, x + 1)
    ensures Increasing([x] + ids) && AtLeast([x] + ids, x)
  {
    var r := [x] + ids;
    forall a, b | 0 <= a < b < |r|
      ensures r[a] < r[b]
    {
      if a > 0 {
        assert r[a] == ids[a - 1] && r[b] == ids[b - 1];
      } else {
        assert r[b] == ids[b - 1];
      }
    }
  }

  /** `itertools.combinations(range(lo, m), r)`, in the same lexicographic
      order: the subsets holding lo come first, then those that do not. */
  function Combinations(lo: nat, m: nat, r: nat): (subsets: seq<seq<nat>>)
    requires lo <= m
    ensures forall k :: 0 <= k < |subsets| ==>
      |subsets[k]| == r && Increasing(subsets[k]) && AtLeast(subsets[k], lo) && InBounds(subsets[k], m)
    decreases r, m - lo
  {
    if r == 0 then [[]]
    else if lo == m then []
    else
      var taking := Combinations(lo + 1, m, r - 1);
      var skipping := Combinations(lo + 1, m, r);
      CombinationsPrefixed(lo, m, taking);
      Prefixed(lo, taking) + skipping
  }

  lemma CombinationsPrefixed(lo: nat, m: nat, taking: seq<seq<nat>>)
    requires lo < m
    requires forall k :: 0 <= k < |taking| ==>
      Increasing(taking[k]) && AtLeast(taking[k], lo + 1) && InBounds(taking[k], m)
    ensures forall k :: 0 <= k < |taking| ==>
      Increasing(Prefixed(lo, taking)[k]) && AtLeast(Prefixed(lo, taking)[k], lo)
      && InBounds(Prefixed(lo, taking)[k], m)
  {
    forall k | 0 <= k < |taking|
      ensures Increasing([lo] + taking[k]) && AtLeast([lo] + taking[k], lo) && InBounds([lo] + taking[k], m)
    {
      ConsIncreasing(lo, taking[k]);
    }
  }

  /** Every strictly increasing sequence of r positions in [lo, m) is
      enumerated: together with the ensures of Combinations, the subsets
      enumerated are exactly those. */
  lemma {:induction false} CombinationsComplete(lo: nat, m: nat, r: nat, ids: seq<nat>)
    requires lo <= m
    requires |ids| == r && Increasing(ids) && AtLeast(ids, lo) && InBounds(ids, m)
    ensures ids in Combinations(lo, m, r)
    decreases r, m - lo
  {
    if r > 0 {
      assert lo <= ids[0] < m;
      if ids[0] == lo {
        var tail := ids[1..];
        TailAbove(ids);
        CombinationsComplete(lo + 1, m, r - 1, tail);
        PrefixedMember(lo, Combinations(lo + 1, m, r - 1), tail);
        assert ids == [lo] + tail;
      } else {
        HeadAbove(ids, lo);
        CombinationsComplete(lo + 1, m, r, ids);
      }
    }
  }

  lemma TailAbove(ids: seq<nat>)
    requires ids != [] && Increasing(ids)
    ensures Increasing(ids[1..]) && AtLeast(ids[1..], ids[0] + 1)
  {
    forall k | 0 <= k < |ids| - 1
      ensures ids[0] + 1 <= ids[1..][k]
    {
      assert ids[0] < ids[k + 1];
    }
  }

  lemma HeadAbove(ids: seq<nat>, lo: nat)
    requires ids != [] && Increasing(ids) && lo < ids[0]
    ensures AtLeast(ids, lo + 1)
  {
    forall k | 0 <= k < |ids|
      ensures lo + 1 <= ids[k]
    {
      assert k == 0 || ids[0] < ids[k];
    }
  }

  lemma PrefixedMember(x: nat, css: seq<seq<nat>>, t: seq<nat>)
    requires t in css
    ensures [x] + t in Prefixed(x, css)
  {
    var k :| 0 <= k < |css| && css[k] == t;
    assert Prefixed(x, css)[k] == [x] + t;
  }

  predicate NoRepeats(subsets: seq<seq<nat>>)
  {
    forall a, b :: 0 <= a < b < |subsets| ==> subsets[a] != subsets[b]
  }

  /** No subset is enumerated twice. */
  lemma {:induction false} CombinationsDistinct(lo: nat, m: nat, r: nat)
    requires lo <= m
    ensures NoRepeats(Combinations(lo, m, r))
    decreases r, m - lo
  {
    if r > 0 && lo < m {
      var taking := Combinations(lo + 1, m, r - 1);
      var skipping := Combinations(lo + 1, m, r);
      CombinationsDistinct(lo + 1, m, r - 1);
      CombinationsDistinct(lo + 1, m, r);
      assert NoRepeats(taking) && NoRepeats(skipping);
      var subsets := Combinations(lo, m, r);
      assert subsets == Prefixed(lo, taking) + skipping;
      forall a, b | 0 <= a < b < |subsets|
        ensures subsets[a] != subsets[b]
      {
        if b < |taking| {
          assert subsets[a] == [lo] + taking[a] && subsets[b] == [lo] + taking[b];
          assert subsets[a][1..] == taking[a] && subsets[b][1..] == taking[b];
          assert taking[a] != taking[b];
        } else if a < |taking| {
          assert subsets[a][0] == lo;
          assert subsets[b] == skipping[b - |taking|];
          assert lo + 1 <= subsets[b][0];
        } else {
          assert subsets[a] == skipping[a - |taking|] && subsets[b] == skipping[b - |taking|];
          assert skipping[a - |taking|] != skipping[b - |taking|];
        }
      }
    }
  }

  /** The binomial coefficient, by Pascal's rule. */
  function Binomial(n: nat, k: nat): nat
  {
    if k == 0 then 1
    else if n == 0 then 0
    else Binomial(n - 1, k - 1) + Binomial(n - 1, k)
  }

  /** The enumeration has C(m - lo, r) entries. */
  lemma {:induction false} CombinationsCount(lo: nat, m: nat, r: nat)
    requires lo <= m
    ensures |Combinations(lo, m, r)| == Binomial(m - lo, r)
    decreases r, m - lo
  {
    if r > 0 && lo < m {
      CombinationsCount(lo + 1, m, r - 1);
      CombinationsCount(lo + 1, m, r);
    }
  }

  /** The subsets the two nested loops visit for sizes 1 up to r, in visiting
      order. */
  function SubsetsUpTo(m: nat, r: nat): (subsets: seq<seq<nat>>)
    ensures forall k :: 0 <= k < |subsets| ==>
      1 <= |subsets[k]| <= r && Increasing(subsets[k]) && InBounds(subsets[k], m)
  {
    if r == 0 then []
    else
      var earlier := SubsetsUpTo(m, r - 1);
      var now := Combinations(0, m, r);
      assert forall k :: 0 <= k < |now| ==> (earlier + now)[|earlier| + k] == now[k];
      earlier + now
  }

  /** Every non-empty increasing sequence of at most r positions below m is
      visited. */
  lemma {:induction false} SubsetsComplete(m: nat, r: nat, ids: seq<nat>)
    requires 1 <= |ids| <= r && Increasing(ids) && InBounds(ids, m)
    ensures ids in SubsetsUpTo(m, r)
  {
    if |ids| == r {
      CombinationsComplete(0, m, r, ids);
    } else {
      SubsetsComplete(m, r - 1, ids);
    }
  }

  lemma InTail(ids: seq<nat>, x: nat)
    requires ids != [] && Increasing(ids)
    ensures x in ids[1..] <==> x in ids && x != ids[0]
  {
    if x in ids[1..] {
      var i :| 0 <= i < |ids| - 1 && ids[1..][i] == x;
      assert ids[i + 1] == x;
    }
    if x in ids && x != ids[0] {
      var i :| 0 <= i < |ids| && ids[i] == x;
      assert ids[1..][i - 1] == x;
    }
  }

  /** An increasing sequence is determined by its members. */
  lemma {:induction false} IncreasingSameMembers(a: seq<nat>, b: seq<nat>)
    requires Increasing(a) && Increasing(b)
    requires forall x: nat :: x in a <==> x in b
    ensures a == b
    decreases |a|
  {
    if a != [] {
      assert a[0] in b;
    }
    if b != [] {
      assert b[0] in a;
    }
    if a != [] && b != [] {
      SameHead(a, b);
      forall x: nat
        ensures x in a[1..] <==> x in b[1..]
      {
        InTail(a, x);
        InTail(b, x);
      }
      TailAbove(a);
      TailAbove(b);
      IncreasingSameMembers(a[1..], b[1..]);
      HeadTail(a);
      HeadTail(b);
    }
  }

  lemma SameHead(a: seq<nat>, b: seq<nat>)
    requires a != [] && b != [] && Increasing(a) && Increasing(b)
    requires a[0] in b && b[0] in a
    ensures a[0] == b[0]
  {
    HeadIsLeast(b, a[0]);
    HeadIsLeast(a, b[0]);
  }

  lemma HeadIsLeast(ids: seq<nat>, x: nat)
    requires ids != [] && Increasing(ids) && x in ids
    ensures ids[0] <= x
  {
    var i := MemberAt(ids, x);
    assert i == 0 || ids[0] < ids[i];
  }

  /** The subsets of sizes 1 .. r are visited once each. */
  lemma {:induction false} SubsetsDistinct(m: nat, r: nat)
    ensures NoRepeats(SubsetsUpTo(m, r))
  {
    if r > 0 {
      var earlier, now := SubsetsUpTo(m, r - 1), Combinations(0, m, r);
      SubsetsDistinct(m, r - 1);
      CombinationsDistinct(0, m, r);
      var all := SubsetsUpTo(m, r);
      assert all == earlier + now;
      forall a, b | 0 <= a < b < |all|
        ensures all[a] != all[b]
      {
        if b < |earlier| {
          assert all[a] == earlier[a] && all[b] == earlier[b];
        } else if a < |earlier| {
          assert |all[a]| == |earlier[a]| < r && |all[b]| == |now[b - |earlier|]| == r;
        } else {
          assert all[a] == now[a - |earlier|] && all[b] == now[b - |earlier|];
        }
      }
    }
  }

  // ---------------------------------------------------------------------
  // The visiting order
  // ---------------------------------------------------------------------

  /** Python's `<` on two tuples of positions of the same length: the first
      position where they differ decides. */
  predicate LexLess(a: seq<nat>, b: seq<nat>)
  {
    a != [] && b != [] && (a[0] < b[0] || (a[0] == b[0] && LexLess(a[1..], b[1..])))
  }

  predicate LexSorted(css: seq<seq<nat>>)
  {
    forall a, b :: 0 <= a < b < |css| ==> LexLess(css[a], css[b])
  }

  /** `itertools.combinations` yields its subsets in strictly increasing
      lexicographic order. */
  lemma {:induction false} CombinationsLexSorted(lo: nat, m: nat, r: nat)
    requires lo <= m
    ensures LexSorted(Combinations(lo, m, r))
    decreases r, m - lo
  {
    if r > 0 && lo < m {
      var taking := Combinations(lo + 1, m, r - 1);
      var skipping := Combinations(lo + 1, m, r);
      CombinationsLexSorted(lo + 1, m, r - 1);
      CombinationsLexSorted(lo + 1, m, r);
      var subsets := Combinations(lo, m, r);
      assert subsets == Prefixed(lo, taking) + skipping;
      forall a, b | 0 <= a < b < |subsets|
        ensures LexLess(subsets[a], subsets[b])
      {
        if b < |taking| {
          assert subsets[a] == [lo] + taking[a] && subsets[b] == [lo] + taking[b];
          assert subsets[a][1..] == taking[a] && subsets[b][1..] == taking[b];
        } else if a < |taking| {
          assert subsets[a] == [lo] + taking[a];
          assert subsets[b] == skipping[b - |taking|];
        } else {
          assert subsets[a] == skipping[a - |taking|] && subsets[b] == skipping[b - |taking|];
        }
      }
    }
  }

  /** The nested loops visit a before b: a smaller subset, or one of the same
      size that comes first lexicographically. */
  predicate VisitedBefore(a: seq<nat>, b: seq<nat>)
  {
    |a| < |b| || (|a| == |b| && LexLess(a, b))
  }

  predicate InVisitOrder(css: seq<seq<nat>>)
  {
    forall a, b :: 0 <= a < b < |css| ==> VisitedBefore(css[a], css[b])
  }

  /** The subsets are visited size by size, smallest first, and within one
      size in lexicographic order. */
  lemma {:induction false} SubsetsVisitOrder(m: nat, r: nat)
    ensures InVisitOrder(SubsetsUpTo(m, r))
  {
    if r > 0 {
      var earlier, now := SubsetsUpTo(m, r - 1), Combinations(0, m, r);
      SubsetsVisitOrder(m, r - 1);
      CombinationsLexSorted(0, m, r);
      var all := SubsetsUpTo(m, r);
      assert all == earlier + now;
      forall a, b | 0 <= a < b < |all|
        ensures VisitedBefore(all[a], all[b])
      {
        if b < |earlier| {
          assert all[a] == earlier[a] && all[b] == earlier[b];
        } else if a < |earlier| {
          assert |all[a]| == |earlier[a]| < r && |all[b]| == |now[b - |earlier|]| == r;
        } else {
          assert all[a] == now[a - |earlier|] && all[b] == now[b - |earlier|];
        }
      }
    }
  }
}
