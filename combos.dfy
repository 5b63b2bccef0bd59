/**
 * The budget combo search (app_final.py:46-72). The twelve best-ranked rows
 * are the candidates; every subset of one, two or three of them is tried in
 * the order `itertools.combinations` produces; the subsets whose total price
 * fits the budget are kept, sorted stably by score (highest first), total
 * price (cheapest first) and size (largest first); and the sorted list is
 * walked, keeping each combo whose multiset of item names has not been seen
 * yet, until three are kept.
 */
module Combos {
  import opened Catalog
  import opened Scoring
  import opened StableSort
  import opened Ranking
  import opened Seqs
  import opened Subsets

  /** How many of the top-ranked rows the search draws from (`head(12)`). */
  const PoolSize: nat := 12
  /** Subsets of one up to this many candidates are tried (`range(1, 4)`). */
  const MaxSize: nat := 3
  /** How many combos are returned; the `topk` argument plays no part. */
  const MaxResults: nat := 3

  /** The candidates: the first min(12, n) rows of the ranking. */
  function Candidates(items: seq<MenuItem>, chosen: seq<string>, target: int): (cand: seq<Scored>)
    ensures |cand| <= PoolSize && |cand| <= |items|
    ensures |cand| == PoolSize || |cand| == |items|
    ensures forall k :: 0 <= k < |cand| ==> cand[k] == RankedItems(items, chosen, target)[k]
  {
    var ranked := RankedItems(items, chosen, target);
    if |ranked| <= PoolSize then ranked else ranked[..PoolSize]
  }

  /** The candidates are catalog rows, each carrying its own score. */
  lemma CandidatesFromCatalog(items: seq<MenuItem>, chosen: seq<string>, target: int)
    ensures forall s <- Candidates(items, chosen, target) ::
      s.item in items && s.score == ScoreItem(s.item, chosen, target)
  {
    var ranked := RankedItems(items, chosen, target);
    var cand := Candidates(items, chosen, target);
    RankedItemsRows(items, chosen, target);
    assert forall s <- cand :: s in ranked;
  }

  /** The search space: C(m,1) + C(m,2) + C(m,3) subsets, at most
      12 + 66 + 220 = 298 for the twelve candidates. */
  lemma SubsetsCount(m: nat)
    ensures |SubsetsUpTo(m, MaxSize)| == Binomial(m, 1) + Binomial(m, 2) + Binomial(m, 3)
  {
    CombinationsCount(0, m, 1);
    CombinationsCount(0, m, 2);
    CombinationsCount(0, m, 3);
    assert SubsetsUpTo(m, 1) == SubsetsUpTo(m, 0) + Combinations(0, m, 1);
    assert SubsetsUpTo(m, 2) == SubsetsUpTo(m, 1) + Combinations(0, m, 2);
    assert SubsetsUpTo(m, 3) == SubsetsUpTo(m, 2) + Combinations(0, m, 3);
  }

  // ---------------------------------------------------------------------
  // Combos and the feasible list
  // ---------------------------------------------------------------------

  /** One entry of `combos`: the tuple (items, total, score, r), together
      with the candidate positions the items were taken from. */
  datatype Combo = Combo(ids: seq<nat>, members: seq<Scored>, total: int, score: int, size: nat)

  /** `items["price"].sum()`. */
  function TotalPrice(members: seq<Scored>): int
  {
    if members == [] then 0 else members[0].item.price + TotalPrice(members[1..])
  }

  /** `items["_score"].sum()`. */
  function TotalScore(members: seq<Scored>): int
  {
    if members == [] then 0 else members[0].score + TotalScore(members[1..])
  }

  /** With no negative prices, a combo costs at least as much as each of its
      members, and nothing is negative. */
  lemma {:induction false} TotalPriceBound(members: seq<Scored>)
    requires forall k :: 0 <= k < |members| ==> members[k].item.price >= 0
    ensures TotalPrice(members) >= 0
    ensures forall k :: 0 <= k < |members| ==> members[k].item.price <= TotalPrice(members)
  {
    if members != [] {
      TotalPriceBound(members[1..]);
      forall k | 1 <= k < |members|
        ensures members[k].item.price <= TotalPrice(members)
      {
        assert members[k] == members[1..][k - 1];
      }
    }
  }

  /** The combo made of the candidates at positions ids. */
  function MakeCombo(cand: seq<Scored>, ids: seq<nat>): (c: Combo)
    requires InBounds(ids, |cand|)
    ensures c.ids == ids && c.size == |ids| && |c.members| == |ids|
    ensures forall k :: 0 <= k < |ids| ==> c.members[k] == cand[ids[k]]
    ensures c.total == TotalPrice(c.members) && c.score == TotalScore(c.members)
  {
    var members := Apply(cand, ids);
    Combo(ids, members, TotalPrice(members), TotalScore(members), |ids|)
  }

  predicate AllInBounds(subsets: seq<seq<nat>>, n: nat)
  {
    forall k :: 0 <= k < |subsets| ==> InBounds(subsets[k], n)
  }

  /** The combos of the visited subsets whose total fits the budget, in
      visiting order: what the loops leave in `combos`. */
  function Feasible(cand: seq<Scored>, budget: int, subsets: seq<seq<nat>>): (kept: seq<Combo>)
    requires AllInBounds(subsets, |cand|)
    ensures |kept| <= |subsets|
  {
    if subsets == [] then []
    else
      var n := |subsets| - 1;
      var c := MakeCombo(cand, subsets[n]);
      Feasible(cand, budget, subsets[..n]) + (if c.total <= budget then [c] else [])
  }

  /** A combo is kept exactly when it is made from a visited subset and its
      total is at most the budget; the bound is inclusive. */
  lemma {:induction false} FeasibleMembers(cand: seq<Scored>, budget: int, subsets: seq<seq<nat>>)
    requires AllInBounds(subsets, |cand|)
    ensures forall c <- Feasible(cand, budget, subsets) ::
      c.ids in subsets && InBounds(c.ids, |cand|) && c == MakeCombo(cand, c.ids) && c.total <= budget
    ensures forall ids <- subsets ::
      InBounds(ids, |cand|) && MakeCombo(cand, ids).total <= budget ==>
      MakeCombo(cand, ids) in Feasible(cand, budget, subsets)
  {
    if subsets != [] {
      var n := |subsets| - 1;
      var init, last := subsets[..n], subsets[n];
      assert subsets == init + [last];
      FeasibleMembers(cand, budget, init);
    }
  }

  // ---------------------------------------------------------------------
  // Sorting the feasible combos
  // ---------------------------------------------------------------------

  /** The sort key `(-score, total, -r)`. */
  function ComboKey(c: Combo): Key
  {
    Key(-c.score, c.total, -(c.size as int))
  }

  function ComboKeys(cs: seq<Combo>): (keys: seq<Key>)
    ensures |keys| == |cs|
    ensures forall k :: 0 <= k < |cs| ==> keys[k] == ComboKey(cs[k])
  {
    seq(|cs|, k requires 0 <= k < |cs| => ComboKey(cs[k]))
  }

  /** `combos.sort(key=...)`, stable. */
  function SortCombos(cs: seq<Combo>): (sorted: seq<Combo>)
    ensures |sorted| == |cs|
  {
    Apply(cs, SortedPositions(ComboKeys(cs)))
  }

  /** x may stand before y in the sorted list: a higher score, or an equal
      score and a lower total, or both equal and at least as many items. */
  predicate ComboBefore(x: Combo, y: Combo)
  {
    || x.score > y.score
    || (x.score == y.score && x.total < y.total)
    || (x.score == y.score && x.total == y.total && x.size >= y.size)
  }

  /** The key puts a higher score first, then a lower total, then more
      items; and x may stand before y exactly when y's key is not smaller. */
  lemma ComboKeyOrder(x: Combo, y: Combo)
    ensures KeyLess(ComboKey(x), ComboKey(y))
      <==> || x.score > y.score
           || (x.score == y.score && x.total < y.total)
           || (x.score == y.score && x.total == y.total && x.size > y.size)
    ensures ComboBefore(x, y) <==> !KeyLess(ComboKey(y), ComboKey(x))
  {
  }

  /** Sorting rearranges the combos, orders them by the key, and keeps
      combos with equal keys in the order the loops found them. */
  lemma SortCombosCorrect(cs: seq<Combo>)
    ensures multiset(SortCombos(cs)) == multiset(cs)
    ensures var sorted := SortCombos(cs);
      forall k, l :: 0 <= k < l < |sorted| ==> ComboBefore(sorted[k], sorted[l])
    ensures var sorted, order := SortCombos(cs), SortedPositions(ComboKeys(cs));
      forall k, l :: 0 <= k < l < |sorted| && ComboKey(sorted[k]) == ComboKey(sorted[l]) ==> order[k] < order[l]
  {
    var keys := ComboKeys(cs);
    var order := SortedPositions(keys);
    var sorted := SortCombos(cs);
    SortedIsPermutation(cs, keys);
    forall k, l | 0 <= k < l < |sorted|
      ensures ComboBefore(sorted[k], sorted[l])
      ensures ComboKey(sorted[k]) == ComboKey(sorted[l]) ==> order[k] < order[l]
    {
      assert Precedes(keys, order[k], order[l]);
      assert sorted[k] == cs[order[k]] && sorted[l] == cs[order[l]];
    }
  }

  // ---------------------------------------------------------------------
  // Keeping the first combo of each name signature
  // ---------------------------------------------------------------------

  function Names(members: seq<Scored>): (names: seq<string>)
    ensures |names| == |members|
    ensures forall k :: 0 <= k < |members| ==> names[k] == members[k].item.name
  {
    seq(|members|, k requires 0 <= k < |members| => members[k].item.name)
  }

  /** `tuple(sorted(names))`: two sorted tuples agree exactly when the names
      agree as a multiset, so the multiset stands for the tuple. */
  function Signature(c: Combo): multiset<string>
  {
    multiset(Names(c.members))
  }

  /** The signature holds one name per item of the combo, and every item's
      name. */
  lemma SignatureNames(c: Combo)
    ensures |Signature(c)| == |c.members|
    ensures forall k :: 0 <= k < |c.members| ==> c.members[k].item.name in Signature(c)
  {
  }

  function SigSet(cs: seq<Combo>): set<multiset<string>>
  {
    set c <- cs :: Signature(c)
  }

  /** The dedup loop from a point where `seen` holds the signatures met so
      far and room more combos may be kept. */
  function FirstDistinct(cs: seq<Combo>, seen: set<multiset<string>>, room: nat): (picked: seq<Combo>)
    ensures |picked| <= room
  {
    if cs == [] || room == 0 then []
    else if Signature(cs[0]) in seen then FirstDistinct(cs[1..], seen, room)
    else [cs[0]] + FirstDistinct(cs[1..], seen + {Signature(cs[0])}, room - 1)
  }

  function Shift(p: seq<nat>): (r: seq<nat>)
    ensures |r| == |p|
    ensures forall k :: 0 <= k < |p| ==> r[k] == p[k] + 1
  {
    seq(|p|, k requires 0 <= k < |p| => p[k] + 1)
  }

  /** picked is taken from cs at the increasing positions pos. */
  predicate TakenAt(cs: seq<Combo>, picked: seq<Combo>, pos: seq<nat>)
  {
    && |pos| == |picked| && Increasing(pos) && InBounds(pos, |cs|)
    && (forall k :: 0 <= k < |pos| ==> picked[k] == cs[pos[k]])
  }

  predicate Unseen(picked: seq<Combo>, seen: set<multiset<string>>)
  {
    forall k :: 0 <= k < |picked| ==> Signature(picked[k]) !in seen
  }

  /** No combo of cs before position pos[k] has the signature of picked[k]. */
  predicate FirstOfSignature(cs: seq<Combo>, picked: seq<Combo>, pos: seq<nat>)
    requires |pos| == |picked| && InBounds(pos, |cs|)
  {
    forall k, j :: 0 <= k < |pos| && 0 <= j < pos[k] ==> Signature(cs[j]) != Signature(picked[k])
  }

  /** picked is taken from cs at the increasing positions pos; no picked
      signature was seen before, and each picked combo is the first of cs
      with its signature. */
  predicate PickedAt(cs: seq<Combo>, seen: set<multiset<string>>, picked: seq<Combo>, pos: seq<nat>)
  {
    TakenAt(cs, picked, pos) && Unseen(picked, seen) && FirstOfSignature(cs, picked, pos)
  }

  lemma TakenAtSkip(cs: seq<Combo>, picked: seq<Combo>, p: seq<nat>)
    requires cs != [] && TakenAt(cs[1..], picked, p)
    ensures TakenAt(cs, picked, Shift(p))
  {
  }

  lemma FirstOfSignatureSkip(cs: seq<Combo>, seen: set<multiset<string>>, picked: seq<Combo>, p: seq<nat>)
    requires cs != [] && Signature(cs[0]) in seen
    requires TakenAt(cs[1..], picked, p) && Unseen(picked, seen) && FirstOfSignature(cs[1..], picked, p)
    ensures TakenAt(cs, picked, Shift(p))
    ensures FirstOfSignature(cs, picked, Shift(p))
  {
    var pos := Shift(p);
    forall k, j | 0 <= k < |pos| && 0 <= j < pos[k]
      ensures Signature(cs[j]) != Signature(picked[k])
    {
      if j > 0 {
        assert cs[j] == cs[1..][j - 1];
      } else {
        assert Signature(picked[k]) !in seen;
      }
    }
  }

  lemma PickedAtSkip(cs: seq<Combo>, seen: set<multiset<string>>, picked: seq<Combo>, p: seq<nat>)
    requires cs != [] && Signature(cs[0]) in seen
    requires PickedAt(cs[1..], seen, picked, p)
    ensures PickedAt(cs, seen, picked, Shift(p))
  {
    FirstOfSignatureSkip(cs, seen, picked, p);
  }

  lemma TakenAtTake(cs: seq<Combo>, picked: seq<Combo>, p: seq<nat>)
    requires cs != [] && TakenAt(cs[1..], picked, p)
    ensures TakenAt(cs, [cs[0]] + picked, [0] + Shift(p))
  {
    var q := Shift(p);
    var pos := [0] + q;
    var all := [cs[0]] + picked;
    forall k | 0 <= k < |pos|
      ensures all[k] == cs[pos[k]]
    {
      if k > 0 {
        assert all[k] == picked[k - 1] && pos[k] == p[k - 1] + 1;
      }
    }
    assert Increasing(q) && AtLeast(q, 1);
    ConsIncreasing(0, q);
  }

  lemma UnseenTake(c: Combo, seen: set<multiset<string>>, picked: seq<Combo>)
    requires Signature(c) !in seen && Unseen(picked, seen + {Signature(c)})
    ensures Unseen([c] + picked, seen)
  {
    forall k | 0 <= k < |picked| + 1
      ensures Signature(([c] + picked)[k]) !in seen
    {
      if k > 0 {
        assert ([c] + picked)[k] == picked[k - 1];
      }
    }
  }

  lemma FirstOfSignatureTake(cs: seq<Combo>, seen: set<multiset<string>>, picked: seq<Combo>, p: seq<nat>)
    requires cs != [] && TakenAt(cs[1..], picked, p)
    requires Unseen(picked, seen + {Signature(cs[0])}) && FirstOfSignature(cs[1..], picked, p)
    ensures TakenAt(cs, [cs[0]] + picked, [0] + Shift(p))
    ensures FirstOfSignature(cs, [cs[0]] + picked, [0] + Shift(p))
  {
    TakenAtTake(cs, picked, p);
    var pos := [0] + Shift(p);
    var all := [cs[0]] + picked;
    forall k, j | 0 <= k < |pos| && 0 <= j < pos[k]
      ensures Signature(cs[j]) != Signature(all[k])
    {
      assert all[k] == picked[k - 1] && pos[k] == p[k - 1] + 1;
      if j > 0 {
        assert cs[j] == cs[1..][j - 1];
      } else {
        assert Signature(picked[k - 1]) !in seen + {Signature(cs[0])};
      }
    }
  }

  lemma PickedAtTake(cs: seq<Combo>, seen: set<multiset<string>>, picked: seq<Combo>, p: seq<nat>)
    requires cs != [] && Signature(cs[0]) !in seen
    requires PickedAt(cs[1..], seen + {Signature(cs[0])}, picked, p)
    ensures PickedAt(cs, seen, [cs[0]] + picked, [0] + Shift(p))
  {
    UnseenTake(cs[0], seen, picked);
    FirstOfSignatureTake(cs, seen, picked, p);
  }

  /** Every combo of cs before position pos[k] has a signature that was
      seen before or is kept ahead of picked[k]: the walk passes over no new
      signature. */
  predicate NoneSkipped(cs: seq<Combo>, seen: set<multiset<string>>, picked: seq<Combo>, pos: seq<nat>)
    requires |pos| == |picked| && InBounds(pos, |cs|)
  {
    forall k, j :: 0 <= k < |pos| && 0 <= j < pos[k] ==> Signature(cs[j]) in seen + SigSet(picked[..k])
  }

  lemma NoneSkippedSkip(cs: seq<Combo>, seen: set<multiset<string>>, picked: seq<Combo>, p: seq<nat>)
    requires cs != [] && Signature(cs[0]) in seen
    requires TakenAt(cs[1..], picked, p) && NoneSkipped(cs[1..], seen, picked, p)
    ensures TakenAt(cs, picked, Shift(p)) && NoneSkipped(cs, seen, picked, Shift(p))
  {
    TakenAtSkip(cs, picked, p);
    var pos := Shift(p);
    forall k, j | 0 <= k < |pos| && 0 <= j < pos[k]
      ensures Signature(cs[j]) in seen + SigSet(picked[..k])
    {
      if j > 0 {
        assert cs[j] == cs[1..][j - 1];
      }
    }
  }

  lemma NoneSkippedTake(cs: seq<Combo>, seen: set<multiset<string>>, picked: seq<Combo>, p: seq<nat>)
    requires cs != []
    requires TakenAt(cs[1..], picked, p) && NoneSkipped(cs[1..], seen + {Signature(cs[0])}, picked, p)
    ensures TakenAt(cs, [cs[0]] + picked, [0] + Shift(p))
    ensures NoneSkipped(cs, seen, [cs[0]] + picked, [0] + Shift(p))
  {
    TakenAtTake(cs, picked, p);
    var pos := [0] + Shift(p);
    var all := [cs[0]] + picked;
    forall k, j | 0 <= k < |pos| && 0 <= j < pos[k]
      ensures Signature(cs[j]) in seen + SigSet(all[..k])
    {
      var i := k - 1;
      assert pos[k] == p[i] + 1;
      assert all[..k] == [cs[0]] + picked[..i];
      SigSetCons(cs[0], picked[..i]);
      if j > 0 {
        assert cs[j] == cs[1..][j - 1];
      }
    }
  }

  /** The dedup loop keeps a subsequence of its input: each kept combo is
      the first of its signature, none had a signature already seen, and no
      combo with a new signature is passed over before the last one kept. */
  lemma {:induction false} FirstDistinctPicks(cs: seq<Combo>, seen: set<multiset<string>>, room: nat)
    returns (pos: seq<nat>)
    ensures PickedAt(cs, seen, FirstDistinct(cs, seen, room), pos)
    ensures NoneSkipped(cs, seen, FirstDistinct(cs, seen, room), pos)
    decreases |cs|
  {
    if cs == [] || room == 0 {
      pos := [];
    } else if Signature(cs[0]) in seen {
      var picked := FirstDistinct(cs[1..], seen, room);
      var p := FirstDistinctPicks(cs[1..], seen, room);
      PickedAtSkip(cs, seen, picked, p);
      NoneSkippedSkip(cs, seen, picked, p);
      pos := Shift(p);
    } else {
      var s, room' := Signature(cs[0]), room - 1;
      var picked := FirstDistinct(cs[1..], seen + {s}, room');
      var p := FirstDistinctPicks(cs[1..], seen + {s}, room');
      PickedAtTake(cs, seen, picked, p);
      NoneSkippedTake(cs, seen, picked, p);
      pos := [0] + Shift(p);
    }
  }

  /** A combo whose signature was neither seen nor kept ahead of picked[k]
      does not stand before picked[k]. */
  lemma NotSkippedPast(cs: seq<Combo>, seen: set<multiset<string>>, picked: seq<Combo>, pos: seq<nat>, k: nat, j: nat)
    requires TakenAt(cs, picked, pos) && NoneSkipped(cs, seen, picked, pos)
    requires k < |pos| && j < |cs| && Signature(cs[j]) !in seen + SigSet(picked[..k])
    ensures pos[k] <= j
  {
  }

  lemma SigSetCons(c: Combo, rest: seq<Combo>)
    ensures SigSet([c] + rest) == {Signature(c)} + SigSet(rest)
  {
    assert forall x <- [c] + rest :: x == c || x in rest;
  }

  lemma SigSetHead(cs: seq<Combo>)
    requires cs != []
    ensures SigSet(cs) == {Signature(cs[0])} + SigSet(cs[1..])
  {
    assert cs == [cs[0]] + cs[1..];
    SigSetCons(cs[0], cs[1..]);
  }

  lemma CoverSkip<T>(all: set<T>, tail: set<T>, seen: set<T>, s: T, kept: set<T>)
    requires all == {s} + tail && s in seen && tail <= seen + kept
    ensures all <= seen + kept
  {
  }

  lemma CoverTake<T>(all: set<T>, tail: set<T>, seen: set<T>, s: T, kept: set<T>, keptTail: set<T>)
    requires all == {s} + tail && kept == {s} + keptTail && tail <= (seen + {s}) + keptTail
    ensures all <= seen + kept
  {
  }

  /** When the dedup loop stops short of its room, every signature of its
      input was either seen before or kept. */
  lemma {:induction false} FirstDistinctMaximal(cs: seq<Combo>, seen: set<multiset<string>>, room: nat)
    requires |FirstDistinct(cs, seen, room)| < room
    ensures SigSet(cs) <= seen + SigSet(FirstDistinct(cs, seen, room))
    decreases |cs|
  {
    if cs != [] && room != 0 {
      var s, tail := Signature(cs[0]), cs[1..];
      SigSetHead(cs);
      if s in seen {
        assert FirstDistinct(cs, seen, room) == FirstDistinct(tail, seen, room);
        FirstDistinctMaximal(tail, seen, room);
        CoverSkip(SigSet(cs), SigSet(tail), seen, s, SigSet(FirstDistinct(cs, seen, room)));
      } else {
        var room' := room - 1;
        var rest := FirstDistinct(tail, seen + {s}, room');
        assert FirstDistinct(cs, seen, room) == [cs[0]] + rest;
        FirstDistinctMaximal(tail, seen + {s}, room');
        SigSetCons(cs[0], rest);
        CoverTake(SigSet(cs), SigSet(tail), seen, s, SigSet([cs[0]] + rest), SigSet(rest));
      }
    }
  }

  // ---------------------------------------------------------------------
  // The whole search
  // ---------------------------------------------------------------------

  /** The list `combos` after the loops: every feasible combo of the
      candidates, in visiting order. */
  function FeasibleCombos(items: seq<MenuItem>, chosen: seq<string>, target: int, budget: int): seq<Combo>
  {
    var cand := Candidates(items, chosen, target);
    Feasible(cand, budget, SubsetsUpTo(|cand|, MaxSize))
  }

  /** Lines 62-71 applied to a list of combos: sort it, then keep the first
      combo of each name signature, at most three. */
  function Dedup(cs: seq<Combo>): (picked: seq<Combo>)
    ensures |picked| <= MaxResults
  {
    FirstDistinct(SortCombos(cs), {}, MaxResults)
  }

  /** What `recommend_combos` returns. */
  function Recommendation(items: seq<MenuItem>, chosen: seq<string>, target: int, budget: int): (r: seq<Combo>)
    ensures |r| <= MaxResults
    ensures r == [] <==> FeasibleCombos(items, chosen, target, budget) == []
  {
    DedupEmptyIff(FeasibleCombos(items, chosen, target, budget));
    Dedup(FeasibleCombos(items, chosen, target, budget))
  }

  lemma {:induction false} FeasibleConcat(cand: seq<Scored>, budget: int, a: seq<seq<nat>>, b: seq<seq<nat>>)
    requires AllInBounds(a, |cand|) && AllInBounds(b, |cand|)
    ensures AllInBounds(a + b, |cand|)
    ensures Feasible(cand, budget, a + b) == Feasible(cand, budget, a) + Feasible(cand, budget, b)
    decreases |b|
  {
    if b != [] {
      var n := |b| - 1;
      assert (a + b)[..|a| + n] == a + b[..n];
      FeasibleConcat(cand, budget, a, b[..n]);
    } else {
      assert a + b == a;
    }
  }

  /** One step of the inner loop: the subset at position t, of size r, is
      kept exactly when its total fits the budget. */
  lemma FeasibleStep(cand: seq<Scored>, budget: int, subsets: seq<seq<nat>>, t: nat, r: nat)
    requires t < |subsets| && AllInBounds(subsets, |cand|) && |subsets[t]| == r
    ensures AllInBounds(subsets[..t], |cand|) && AllInBounds(subsets[..t + 1], |cand|)
    ensures var ids := subsets[t]; var members := Apply(cand, ids);
      Feasible(cand, budget, subsets[..t + 1])
      == Feasible(cand, budget, subsets[..t])
         + (if TotalPrice(members) <= budget
            then [Combo(ids, members, TotalPrice(members), TotalScore(members), r)]
            else [])
  {
    assert subsets[..t + 1][..t] == subsets[..t];
  }

  /** The nested loops of lines 51-57: every subset of one to three
      candidates, in `itertools.combinations` order, whose total fits the
      budget is appended to `combos`. */
  method CollectFeasible(cand: seq<Scored>, budget: int) returns (combos: seq<Combo>)
    ensures combos == Feasible(cand, budget, SubsetsUpTo(|cand|, MaxSize))
  {
    var m := |cand|;
    combos := [];
    for r := 1 to MaxSize + 1
      invariant combos == Feasible(cand, budget, SubsetsUpTo(m, r - 1))
    {
      combos := AppendFeasibleOfSize(cand, budget, r, Combinations(0, m, r), combos);
      FeasibleConcat(cand, budget, SubsetsUpTo(m, r - 1), Combinations(0, m, r));
    }
  }

  /** The inner loop of lines 52-57 for one size r, over the subsets
      `itertools.combinations` yields for that size: those whose total fits
      the budget are appended to `combos`, in enumeration order. */
  method AppendFeasibleOfSize(cand: seq<Scored>, budget: int, r: nat, subsets: seq<seq<nat>>, combos: seq<Combo>)
    returns (extended: seq<Combo>)
    requires AllInBounds(subsets, |cand|)
    requires forall k :: 0 <= k < |subsets| ==> |subsets[k]| == r
    ensures extended == combos + Feasible(cand, budget, subsets)
  {
    extended := combos;
    for t := 0 to |subsets|
      invariant AllInBounds(subsets[..t], |cand|)
      invariant extended == combos + Feasible(cand, budget, subsets[..t])
    {
      FeasibleStep(cand, budget, subsets, t, r);
      var ids := subsets[t];
      var members := Apply(cand, ids);
      var total := TotalPrice(members);
      if total <= budget {
        var score := TotalScore(members);
        extended := extended + [Combo(ids, members, total, score, r)];
      }
    }
    assert subsets[..|subsets|] == subsets;
  }

  /** The dedup loop of lines 63-71 over the sorted list: `seen` collects
      the signatures kept so far, and the loop stops once three combos are
      kept. */
  method KeepFirstDistinct(sorted: seq<Combo>) returns (out: seq<Combo>)
    ensures out == FirstDistinct(sorted, {}, MaxResults)
  {
    out := [];
    var seen: set<multiset<string>> := {};
    var i := 0;
    while i < |sorted|
      invariant i <= |sorted| && |out| < MaxResults
      invariant out + FirstDistinct(sorted[i..], seen, MaxResults - |out|) == FirstDistinct(sorted, {}, MaxResults)
    {
      var c := sorted[i];
      var sig := Signature(c);
      var room: nat := MaxResults - |out|;
      var room': nat := room - 1;
      FirstDistinctStep(sorted, i, seen, room);
      i := i + 1;
      if sig in seen {
        continue;
      }
      AppendAssoc(out, c, FirstDistinct(sorted[i..], seen + {sig}, room'));
      seen := seen + {sig};
      out := out + [c];
      if |out| == MaxResults {
        break;
      }
    }
  }

  /** One step of the scan behind FirstDistinct, at position i. */
  lemma FirstDistinctStep(cs: seq<Combo>, i: nat, seen: set<multiset<string>>, room: nat)
    requires i < |cs| && room > 0
    ensures FirstDistinct(cs[i..], seen, room)
      == if Signature(cs[i]) in seen then FirstDistinct(cs[i + 1..], seen, room)
         else [cs[i]] + FirstDistinct(cs[i + 1..], seen + {Signature(cs[i])}, room - 1)
  {
    assert cs[i..][0] == cs[i] && cs[i..][1..] == cs[i + 1..];
  }

  /** `recommend_combos`. The `topk` argument is accepted and ignored. */
  method RecommendCombos(items: seq<MenuItem>, chosen: seq<string>, target: int, budget: int, topk: int)
    returns (out: seq<Combo>)
    ensures out == Recommendation(items, chosen, target, budget)
  {
    var cand := Candidates(items, chosen, target);
    var combos := CollectFeasible(cand, budget);
    if combos == [] {
      return [];
    }
    combos := SortCombos(combos);
    out := KeepFirstDistinct(combos);
  }

  // ---------------------------------------------------------------------
  // What the recommendation promises
  // ---------------------------------------------------------------------

  /** Dedup takes its result from the sorted list at increasing positions,
      each combo the first of its signature there. */
  lemma DedupPicks(cs: seq<Combo>) returns (pos: seq<nat>)
    ensures PickedAt(SortCombos(cs), {}, Dedup(cs), pos)
    ensures NoneSkipped(SortCombos(cs), {}, Dedup(cs), pos)
    ensures forall c <- Dedup(cs) :: c in cs
  {
    var sorted := SortCombos(cs);
    var out := Dedup(cs);
    pos := FirstDistinctPicks(sorted, {}, MaxResults);
    SortCombosCorrect(cs);
    forall c <- out
      ensures c in cs
    {
      var k :| 0 <= k < |out| && out[k] == c;
      assert sorted[pos[k]] == c;
      assert c in multiset(sorted);
    }
  }

  /** At most three combos come back, whatever topk is, and no two have the
      same multiset of item names. */
  lemma DedupDistinct(cs: seq<Combo>)
    ensures |Dedup(cs)| <= MaxResults
    ensures forall k, l :: 0 <= k < l < |Dedup(cs)| ==> Signature(Dedup(cs)[k]) != Signature(Dedup(cs)[l])
  {
    var sorted := SortCombos(cs);
    var out := Dedup(cs);
    var pos := DedupPicks(cs);
    forall k, l | 0 <= k < l < |out|
      ensures Signature(out[k]) != Signature(out[l])
    {
      assert pos[k] < pos[l];
      assert out[k] == sorted[pos[k]];
    }
  }

  /** The result is ordered by score (highest first), then total (cheapest
      first), then size (largest first). */
  lemma DedupOrdered(cs: seq<Combo>)
    ensures forall k, l :: 0 <= k < l < |Dedup(cs)| ==> ComboBefore(Dedup(cs)[k], Dedup(cs)[l])
  {
    var out := Dedup(cs);
    var pos := DedupPicks(cs);
    SortCombosCorrect(cs);
    forall k, l | 0 <= k < l < |out|
      ensures ComboBefore(out[k], out[l])
    {
      assert pos[k] < pos[l];
    }
  }

  /** Each kept combo is at least as good as every combo of the input with
      the same names, and the first kept combo is at least as good as every
      combo of the input. */
  lemma DedupBest(cs: seq<Combo>)
    ensures forall k, c :: 0 <= k < |Dedup(cs)| && c in cs && Signature(c) == Signature(Dedup(cs)[k]) ==>
      ComboBefore(Dedup(cs)[k], c)
    ensures Dedup(cs) != [] ==> forall c <- cs :: ComboBefore(Dedup(cs)[0], c)
  {
    var sorted := SortCombos(cs);
    var out := Dedup(cs);
    var pos := DedupPicks(cs);
    SortCombosCorrect(cs);
    forall k, c | 0 <= k < |out| && c in cs && Signature(c) == Signature(out[k])
      ensures ComboBefore(out[k], c)
    {
      assert c in multiset(sorted);
      var j := MemberAt(sorted, c);
      if j != pos[k] {
        assert pos[k] < j;
      }
    }
    if out != [] {
      assert out[0] == sorted[0];
      forall c <- cs
        ensures ComboBefore(out[0], c)
      {
        assert c in multiset(sorted);
        var j := MemberAt(sorted, c);
      }
    }
  }

  /** The k-th combo returned is at least as good as every combo of the
      input whose names are not those of a combo returned ahead of it: the
      result is the best combo of each of the first three name multisets the
      sorted list meets. */
  lemma DedupBestOfRest(cs: seq<Combo>)
    ensures forall k, c :: 0 <= k < |Dedup(cs)| && c in cs && Signature(c) !in SigSet(Dedup(cs)[..k]) ==>
      ComboBefore(Dedup(cs)[k], c)
  {
    var sorted := SortCombos(cs);
    var out := Dedup(cs);
    var pos := DedupPicks(cs);
    SortCombosCorrect(cs);
    forall k, c | 0 <= k < |out| && c in cs && Signature(c) !in SigSet(out[..k])
      ensures ComboBefore(out[k], c)
    {
      assert c in multiset(sorted);
      var j := MemberAt(sorted, c);
      NotSkippedPast(sorted, {}, out, pos, k, j);
      if pos[k] < j {
        assert ComboBefore(sorted[pos[k]], sorted[j]);
      }
    }
  }

  lemma SigSetPermutation(a: seq<Combo>, b: seq<Combo>)
    requires multiset(a) == multiset(b)
    ensures SigSet(a) == SigSet(b)
  {
    forall c ensures c in a <==> c in b {
      assert c in a <==> c in multiset(a);
      assert c in b <==> c in multiset(b);
    }
  }

  /** When fewer than three combos come back, every combo of the input has
      the names of one of them. */
  lemma DedupMaximal(cs: seq<Combo>)
    requires |Dedup(cs)| < MaxResults
    ensures SigSet(Dedup(cs)) == SigSet(cs)
  {
    var sorted := SortCombos(cs);
    DedupFromInput(cs);
    FirstDistinctMaximal(sorted, {}, MaxResults);
    SortedIsPermutation(cs, ComboKeys(cs));
    SigSetPermutation(sorted, cs);
  }

  /** Every returned combo comes from the input. */
  lemma DedupFromInput(cs: seq<Combo>)
    ensures forall c <- Dedup(cs) :: c in cs
  {
    var _ := DedupPicks(cs);
  }

  /** Nothing comes back exactly when there is nothing to choose from. */
  lemma DedupEmptyIff(cs: seq<Combo>)
    ensures Dedup(cs) == [] <==> cs == []
  {
    if cs != [] {
      assert SortCombos(cs) != [];
    }
  }

  /** Every recommended combo is one to three distinct candidates, in
      increasing position order; its total is the sum of its members'
      prices and fits the budget (inclusively); its score is the sum of
      its members' scores. */
  lemma RecommendationSound(items: seq<MenuItem>, chosen: seq<string>, target: int, budget: int)
    ensures var cand := Candidates(items, chosen, target);
      forall c <- Recommendation(items, chosen, target, budget) ::
        && 1 <= |c.ids| <= MaxSize && c.size == |c.ids| && Increasing(c.ids) && InBounds(c.ids, |cand|)
        && |c.members| == |c.ids| && (forall k :: 0 <= k < |c.ids| ==> c.members[k] == cand[c.ids[k]])
        && c.total == TotalPrice(c.members) && c.total <= budget
        && c.score == TotalScore(c.members)
  {
    var cand := Candidates(items, chosen, target);
    var cs := Feasible(cand, budget, SubsetsUpTo(|cand|, MaxSize));
    assert FeasibleCombos(items, chosen, target, budget) == cs;
    var _ := DedupPicks(cs);
    FeasibleShape(cand, budget);
  }

  /** Every feasible combo is one to three distinct candidates, in
      increasing position order, whose total fits the budget. */
  lemma FeasibleShape(cand: seq<Scored>, budget: int)
    ensures forall c <- Feasible(cand, budget, SubsetsUpTo(|cand|, MaxSize)) ::
      && 1 <= |c.ids| <= MaxSize && c.size == |c.ids| && Increasing(c.ids) && InBounds(c.ids, |cand|)
      && |c.members| == |c.ids| && (forall k :: 0 <= k < |c.ids| ==> c.members[k] == cand[c.ids[k]])
      && c.total == TotalPrice(c.members) && c.total <= budget
      && c.score == TotalScore(c.members)
  {
    var subsets := SubsetsUpTo(|cand|, MaxSize);
    FeasibleMembers(cand, budget, subsets);
    forall c <- Feasible(cand, budget, subsets)
      ensures 1 <= |c.ids| <= MaxSize && Increasing(c.ids)
    {
      assert c.ids in multiset(subsets);
      var k := MemberAt(subsets, c.ids);
    }
  }

  /** The feasible combos keep the visiting order of their subsets. */
  predicate IdsInVisitOrder(cs: seq<Combo>)
  {
    forall k, l :: 0 <= k < l < |cs| ==> VisitedBefore(cs[k].ids, cs[l].ids)
  }

  lemma {:induction false} FeasibleVisitOrder(cand: seq<Scored>, budget: int, subsets: seq<seq<nat>>)
    requires AllInBounds(subsets, |cand|) && InVisitOrder(subsets)
    ensures IdsInVisitOrder(Feasible(cand, budget, subsets))
  {
    if subsets != [] {
      var n := |subsets| - 1;
      var init, last := subsets[..n], subsets[n];
      assert forall a :: 0 <= a < n ==> init[a] == subsets[a];
      FeasibleVisitOrder(cand, budget, init);
      FeasibleMembers(cand, budget, init);
      var kept, before := Feasible(cand, budget, subsets), Feasible(cand, budget, init);
      var c := MakeCombo(cand, last);
      assert kept == before + (if c.total <= budget then [c] else []);
      forall k, l | 0 <= k < l < |kept|
        ensures VisitedBefore(kept[k].ids, kept[l].ids)
      {
        assert kept[k] == before[k];
        if l >= |before| {
          assert kept[l].ids == last;
          assert before[k] in before;
          var a := MemberAt(init, before[k].ids);
          assert init[a] == subsets[a];
        } else {
          assert kept[l] == before[l];
        }
      }
    }
  }

  /** Sorting leaves combos with equal keys in visiting order; when every
      combo's size is its number of positions, equal keys mean equal sizes,
      so such combos stand in lexicographic order of their positions. */
  lemma SortTiesKeepVisitOrder(cs: seq<Combo>)
    requires IdsInVisitOrder(cs)
    requires forall c <- cs :: c.size == |c.ids|
    ensures var sorted := SortCombos(cs);
      forall k, l :: 0 <= k < l < |sorted| && ComboKey(sorted[k]) == ComboKey(sorted[l]) ==>
        LexLess(sorted[k].ids, sorted[l].ids)
  {
    var order := SortedPositions(ComboKeys(cs));
    var sorted := SortCombos(cs);
    SortCombosCorrect(cs);
    forall k, l | 0 <= k < l < |sorted| && ComboKey(sorted[k]) == ComboKey(sorted[l])
      ensures LexLess(sorted[k].ids, sorted[l].ids)
    {
      assert sorted[k] == cs[order[k]] && sorted[l] == cs[order[l]];
      assert order[k] < order[l];
      assert sorted[k] in cs && sorted[l] in cs;
    }
  }

  /** Combos that tie on (score, total, size) come out of the sort in the
      order `itertools.combinations` produced them: lexicographic order of
      their candidate positions. This decides which of them make the cut at
      three. */
  lemma SortedTiesInCombinationOrder(items: seq<MenuItem>, chosen: seq<string>, target: int, budget: int)
    ensures var sorted := SortCombos(FeasibleCombos(items, chosen, target, budget));
      forall k, l :: 0 <= k < l < |sorted| && ComboKey(sorted[k]) == ComboKey(sorted[l]) ==>
        LexLess(sorted[k].ids, sorted[l].ids)
  {
    var cand := Candidates(items, chosen, target);
    var subsets := SubsetsUpTo(|cand|, MaxSize);
    var cs := Feasible(cand, budget, subsets);
    assert FeasibleCombos(items, chosen, target, budget) == cs;
    SubsetsVisitOrder(|cand|, MaxSize);
    FeasibleVisitOrder(cand, budget, subsets);
    FeasibleMembers(cand, budget, subsets);
    SortTiesKeepVisitOrder(cs);
  }

  /** A combo of one to three candidates is feasible exactly when its total
      is at most the budget: a combo costing exactly the budget is kept. */
  lemma ComboFeasibleIff(items: seq<MenuItem>, chosen: seq<string>, target: int, budget: int, ids: seq<nat>)
    requires 1 <= |ids| <= MaxSize && Increasing(ids) && InBounds(ids, |Candidates(items, chosen, target)|)
    ensures var c := MakeCombo(Candidates(items, chosen, target), ids);
      c in FeasibleCombos(items, chosen, target, budget) <==> c.total <= budget
  {
    var cand := Candidates(items, chosen, target);
    SubsetsComplete(|cand|, MaxSize, ids);
    FeasibleMembers(cand, budget, SubsetsUpTo(|cand|, MaxSize));
  }

  /** With no negative prices, some subset of the candidates fits exactly
      when some candidate alone fits. */
  lemma FeasibleIffCheapCandidate(cand: seq<Scored>, budget: int)
    requires forall s <- cand :: s.item.price >= 0
    ensures Feasible(cand, budget, SubsetsUpTo(|cand|, MaxSize)) != []
      <==> exists s <- cand :: s.item.price <= budget
  {
    var feasible := Feasible(cand, budget, SubsetsUpTo(|cand|, MaxSize));
    if feasible != [] {
      FeasibleHasCheapCandidate(cand, budget);
    }
    if s :| s in cand && s.item.price <= budget {
      CheapCandidateIsFeasible(cand, budget, s);
    }
  }

  lemma FeasibleHasCheapCandidate(cand: seq<Scored>, budget: int)
    requires forall s <- cand :: s.item.price >= 0
    requires Feasible(cand, budget, SubsetsUpTo(|cand|, MaxSize)) != []
    ensures exists s <- cand :: s.item.price <= budget
  {
    var subsets := SubsetsUpTo(|cand|, MaxSize);
    var feasible := Feasible(cand, budget, subsets);
    FeasibleMembers(cand, budget, subsets);
    var c := feasible[0];
    assert c in feasible;
    CheapMember(cand, c);
    assert cand[c.ids[0]] in cand;
  }

  lemma CheapCandidateIsFeasible(cand: seq<Scored>, budget: int, s: Scored)
    requires s in cand && s.item.price <= budget
    ensures Feasible(cand, budget, SubsetsUpTo(|cand|, MaxSize)) != []
  {
    var subsets := SubsetsUpTo(|cand|, MaxSize);
    var x :| 0 <= x < |cand| && cand[x] == s;
    SubsetsComplete(|cand|, MaxSize, [x]);
    FeasibleMembers(cand, budget, subsets);
    var c := MakeCombo(cand, [x]);
    assert c.members == [s] && [s][1..] == [];
    assert TotalPrice([s]) == s.item.price + TotalPrice([]);
    assert [x] in subsets;
  }

  lemma CheapMember(cand: seq<Scored>, c: Combo)
    requires forall s <- cand :: s.item.price >= 0
    requires 1 <= |c.ids| && InBounds(c.ids, |cand|) && c == MakeCombo(cand, c.ids)
    ensures cand[c.ids[0]].item.price <= c.total
  {
    var members := c.members;
    forall k | 0 <= k < |members|
      ensures members[k].item.price >= 0
    {
      assert members[k] in cand;
    }
    TotalPriceBound(members);
  }

  /** The result is empty exactly when no subset of the candidates fits the
      budget; with no negative prices, exactly when every candidate alone
      costs more than the budget. */
  lemma RecommendationEmptyIff(items: seq<MenuItem>, chosen: seq<string>, target: int, budget: int)
    ensures Recommendation(items, chosen, target, budget) == [] <==> FeasibleCombos(items, chosen, target, budget) == []
    ensures (forall k :: 0 <= k < |items| ==> items[k].price >= 0) ==>
      (Recommendation(items, chosen, target, budget) == []
       <==> forall s <- Candidates(items, chosen, target) :: budget < s.item.price)
  {
    DedupEmptyIff(FeasibleCombos(items, chosen, target, budget));
    if forall k :: 0 <= k < |items| ==> items[k].price >= 0 {
      CandidatesFromCatalog(items, chosen, target);
      var cand := Candidates(items, chosen, target);
      forall s <- cand
        ensures s.item.price >= 0
      {
        var k :| 0 <= k < |items| && items[k] == s.item;
      }
      FeasibleIffCheapCandidate(cand, budget);
    }
  }

  /** The caller's pre-check: when every catalog row costs more than the
      budget (and none is negative), no combo comes back. */
  lemma AllOverBudgetGivesNothing(items: seq<MenuItem>, chosen: seq<string>, target: int, budget: int)
    requires forall k :: 0 <= k < |items| ==> budget < items[k].price
    requires forall k :: 0 <= k < |items| ==> items[k].price >= 0
    ensures Recommendation(items, chosen, target, budget) == []
  {
    CandidatesFromCatalog(items, chosen, target);
    RecommendationEmptyIff(items, chosen, target, budget);
    forall s <- Candidates(items, chosen, target)
      ensures budget < s.item.price
    {
      var k :| 0 <= k < |items| && items[k] == s.item;
    }
  }

  // ---------------------------------------------------------------------
  // When no two rows share a name
  // ---------------------------------------------------------------------

  /** No two catalog rows share a name. */
  predicate DistinctNames(items: seq<MenuItem>)
  {
    forall a, b :: 0 <= a < b < |items| ==> items[a].name != items[b].name
  }

  /** No two candidates share a name. */
  predicate DistinctCandidateNames(cand: seq<Scored>)
  {
    forall a, b :: 0 <= a < b < |cand| ==> cand[a].item.name != cand[b].item.name
  }

  /** Distinct catalog names stay distinct among the candidates: the ranking
      lists every catalog row once. */
  lemma CandidatesDistinctNames(items: seq<MenuItem>, chosen: seq<string>, target: int)
    requires DistinctNames(items)
    ensures DistinctCandidateNames(Candidates(items, chosen, target))
  {
    var scored := ScoreAll(items, chosen, target);
    var order := RankOrder(items, chosen, target);
    var cand := Candidates(items, chosen, target);
    SortedPositionsDistinct(RankKeys(scored));
    forall a, b | 0 <= a < b < |cand|
      ensures cand[a].item.name != cand[b].item.name
    {
      assert cand[a].item == items[order[a]] && cand[b].item == items[order[b]];
      assert order[a] != order[b];
      if order[a] < order[b] {
        assert items[order[a]].name != items[order[b]].name;
      } else {
        assert items[order[b]].name != items[order[a]].name;
      }
    }
  }

  /** Every position in a is in b when their names agree as multisets and
      the candidates' names are distinct. */
  lemma NamesCover(cand: seq<Scored>, a: seq<nat>, b: seq<nat>)
    requires DistinctCandidateNames(cand) && InBounds(a, |cand|) && InBounds(b, |cand|)
    requires multiset(Names(Apply(cand, a))) == multiset(Names(Apply(cand, b)))
    ensures forall x :: x in a ==> x in b
  {
    var na, nb := Names(Apply(cand, a)), Names(Apply(cand, b));
    forall x | x in a
      ensures x in b
    {
      var i := MemberAt(a, x);
      assert na[i] == cand[x].item.name;
      assert na[i] in multiset(na);
      var j := MemberAt(nb, na[i]);
      assert cand[b[j]].item.name == cand[x].item.name;
      NameDeterminesPosition(cand, b[j], x);
    }
  }

  lemma NameDeterminesPosition(cand: seq<Scored>, p: nat, q: nat)
    requires DistinctCandidateNames(cand) && p < |cand| && q < |cand|
    ensures cand[p].item.name == cand[q].item.name ==> p == q
  {
    if p < q {
      assert cand[p].item.name != cand[q].item.name;
    } else if q < p {
      assert cand[q].item.name != cand[p].item.name;
    }
  }

  /** With distinct candidate names, the name signature of a combo
      determines which candidates it holds. */
  lemma SignatureDeterminesIds(cand: seq<Scored>, a: seq<nat>, b: seq<nat>)
    requires DistinctCandidateNames(cand)
    requires Increasing(a) && Increasing(b) && InBounds(a, |cand|) && InBounds(b, |cand|)
    ensures Signature(MakeCombo(cand, a)) == Signature(MakeCombo(cand, b)) ==> a == b
  {
    if Signature(MakeCombo(cand, a)) == Signature(MakeCombo(cand, b)) {
      NamesCover(cand, a, b);
      NamesCover(cand, b, a);
      IncreasingSameMembers(a, b);
    }
  }

  /** Two feasible combos found at different steps come from different
      subsets when no subset is visited twice. */
  predicate DistinctIds(cs: seq<Combo>)
  {
    forall k, l :: 0 <= k < l < |cs| ==> cs[k].ids != cs[l].ids
  }

  lemma {:induction false} FeasibleIdsDistinct(cand: seq<Scored>, budget: int, subsets: seq<seq<nat>>)
    requires AllInBounds(subsets, |cand|) && NoRepeats(subsets)
    ensures DistinctIds(Feasible(cand, budget, subsets))
  {
    if subsets != [] {
      var n := |subsets| - 1;
      var init, last := subsets[..n], subsets[n];
      assert forall a :: 0 <= a < n ==> init[a] == subsets[a];
      FeasibleIdsDistinct(cand, budget, init);
      FeasibleMembers(cand, budget, init);
      var kept, before := Feasible(cand, budget, subsets), Feasible(cand, budget, init);
      var c := MakeCombo(cand, last);
      assert kept == before + (if c.total <= budget then [c] else []);
      forall k, l | 0 <= k < l < |kept|
        ensures kept[k].ids != kept[l].ids
      {
        assert kept[k] == before[k];
        if l >= |before| {
          assert kept[l].ids == last;
          assert before[k] in before;
          var a := MemberAt(init, before[k].ids);
          assert init[a] == subsets[a] && subsets[a] != subsets[n];
        } else {
          assert kept[l] == before[l];
        }
      }
    }
  }

  /** No two combos of the list share a signature. */
  predicate DistinctSignatures(cs: seq<Combo>)
  {
    forall k, l :: 0 <= k < l < |cs| ==> Signature(cs[k]) != Signature(cs[l])
  }

  /** With distinct candidate names, no two feasible combos share a
      signature. */
  lemma FeasibleSignaturesDistinct(cand: seq<Scored>, budget: int, cs: seq<Combo>)
    requires DistinctCandidateNames(cand)
    requires cs == Feasible(cand, budget, SubsetsUpTo(|cand|, MaxSize))
    ensures DistinctSignatures(cs)
  {
    var subsets := SubsetsUpTo(|cand|, MaxSize);
    SubsetsDistinct(|cand|, MaxSize);
    FeasibleIdsDistinct(cand, budget, subsets);
    FeasibleMembers(cand, budget, subsets);
    forall k, l | 0 <= k < l < |cs|
      ensures Signature(cs[k]) != Signature(cs[l])
    {
      var c, d := cs[k], cs[l];
      assert c in cs && d in cs;
      SignatureDeterminesIds(cand, c.ids, d.ids);
    }
  }

  /** Sorting keeps signatures pairwise distinct: it lists every position
      once. */
  lemma SortCombosKeepsDistinct(cs: seq<Combo>)
    requires DistinctSignatures(cs)
    ensures DistinctSignatures(SortCombos(cs))
  {
    var order := SortedPositions(ComboKeys(cs));
    var sorted := SortCombos(cs);
    SortedPositionsDistinct(ComboKeys(cs));
    forall k, l | 0 <= k < l < |sorted|
      ensures Signature(sorted[k]) != Signature(sorted[l])
    {
      assert sorted[k] == cs[order[k]] && sorted[l] == cs[order[l]];
      assert order[k] != order[l];
      if order[k] < order[l] {
        assert Signature(cs[order[k]]) != Signature(cs[order[l]]);
      } else {
        assert Signature(cs[order[l]]) != Signature(cs[order[k]]);
      }
    }
  }

  lemma DistinctSignaturesTail(cs: seq<Combo>, seen: set<multiset<string>>)
    requires cs != [] && DistinctSignatures(cs) && Unseen(cs, seen)
    ensures DistinctSignatures(cs[1..]) && Unseen(cs[1..], seen + {Signature(cs[0])})
  {
    var tail := cs[1..];
    forall k | 0 <= k < |tail|
      ensures Signature(tail[k]) !in seen + {Signature(cs[0])}
    {
      assert tail[k] == cs[k + 1];
    }
    forall k, l | 0 <= k < l < |tail|
      ensures Signature(tail[k]) != Signature(tail[l])
    {
      assert tail[k] == cs[k + 1] && tail[l] == cs[l + 1];
    }
  }

  /** When every signature is new, the dedup loop keeps the first `room`
      combos. */
  lemma {:induction false} FirstDistinctAllNew(cs: seq<Combo>, seen: set<multiset<string>>, room: nat)
    requires DistinctSignatures(cs) && Unseen(cs, seen)
    ensures FirstDistinct(cs, seen, room) == cs[..if room < |cs| then room else |cs|]
    decreases |cs|
  {
    if cs != [] && room != 0 {
      var s, tail, room' := Signature(cs[0]), cs[1..], room - 1;
      DistinctSignaturesTail(cs, seen);
      FirstDistinctAllNew(tail, seen + {s}, room');
      PrefixCons(cs, if room < |cs| then room else |cs|);
    }
  }

  /** When no two catalog rows share a name, the dedup step drops nothing:
      the result is the first three combos of the sorted feasible list (or
      all of them, when fewer are feasible). */
  lemma DistinctNamesKeepTopThree(items: seq<MenuItem>, chosen: seq<string>, target: int, budget: int)
    requires DistinctNames(items)
    ensures var sorted := SortCombos(FeasibleCombos(items, chosen, target, budget));
      Recommendation(items, chosen, target, budget)
      == sorted[..if MaxResults < |sorted| then MaxResults else |sorted|]
  {
    var cand := Candidates(items, chosen, target);
    var cs := Feasible(cand, budget, SubsetsUpTo(|cand|, MaxSize));
    assert FeasibleCombos(items, chosen, target, budget) == cs;
    CandidatesDistinctNames(items, chosen, target);
    FeasibleSignaturesDistinct(cand, budget, cs);
    DedupAllDistinct(cs);
  }

  /** When no two combos of the list share a signature, the dedup step
      keeps the first three of the sorted list. */
  lemma DedupAllDistinct(cs: seq<Combo>)
    requires DistinctSignatures(cs)
    ensures var sorted := SortCombos(cs);
      Dedup(cs) == sorted[..if MaxResults < |sorted| then MaxResults else |sorted|]
  {
    SortCombosKeepsDistinct(cs);
    FirstDistinctAllNew(SortCombos(cs), {}, MaxResults);
  }
}
