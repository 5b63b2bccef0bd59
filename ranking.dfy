/**
 * The ranker (app_final.py:38-43): every row gets its score, then the rows
 * are sorted by score, highest first, and among equal scores by price,
 * cheapest first. pandas sorts on several columns stably, so rows equal in
 * both keep their catalog order.
 */
module Ranking {
  import opened Catalog
  import opened Scoring
  import opened StableSort

  /** A catalog row together with its `_score` column. */
  datatype Scored = Scored(item: MenuItem, score: int)

  /** `df.assign(_score=...)`: every row with its score, in catalog order. */
  function ScoreAll(items: seq<MenuItem>, chosen: seq<string>, target: int): (scored: seq<Scored>)
    ensures |scored| == |items|
    ensures forall i :: 0 <= i < |items| ==> scored[i] == Scored(items[i], ScoreItem(items[i], chosen, target))
  {
    seq(|items|, i requires 0 <= i < |items| => Scored(items[i], ScoreItem(items[i], chosen, target)))
  }

  /** The sort key `["_score", "price"]` with `ascending=[False, True]`. */
  function RankKey(s: Scored): Key
  {
    Key(-s.score, s.item.price, 0)
  }

  function RankKeys(scored: seq<Scored>): (keys: seq<Key>)
    ensures |keys| == |scored|
    ensures forall i :: 0 <= i < |scored| ==> keys[i] == RankKey(scored[i])
  {
    seq(|scored|, i requires 0 <= i < |scored| => RankKey(scored[i]))
  }

  /** The key puts a higher score first and, among equal scores, a lower
      price first; rows equal in both have equal keys. */
  lemma RankKeyOrder(s: Scored, t: Scored)
    ensures KeyLess(RankKey(s), RankKey(t))
      <==> s.score > t.score || (s.score == t.score && s.item.price < t.item.price)
    ensures RankKey(s) == RankKey(t) <==> s.score == t.score && s.item.price == t.item.price
  {
  }

  /** The catalog positions of the rows, in ranked order. */
  function RankOrder(items: seq<MenuItem>, chosen: seq<string>, target: int): (order: seq<nat>)
    ensures |order| == |items| && InBounds(order, |items|)
  {
    SortedPositions(RankKeys(ScoreAll(items, chosen, target)))
  }

  /** `ranked_items`: the scored rows in ranked order (the reset index is the
      position in the result). */
  function RankedItems(items: seq<MenuItem>, chosen: seq<string>, target: int): (ranked: seq<Scored>)
    ensures |ranked| == |items|
  {
    Apply(ScoreAll(items, chosen, target), RankOrder(items, chosen, target))
  }

  /** Row i is ranked before row j: a higher score, or an equal score and a
      lower price, or both equal and i comes first in the catalog. */
  predicate RankedBefore(scored: seq<Scored>, i: nat, j: nat)
    requires i < |scored| && j < |scored|
  {
    || scored[i].score > scored[j].score
    || (scored[i].score == scored[j].score && scored[i].item.price < scored[j].item.price)
    || (scored[i].score == scored[j].score && scored[i].item.price == scored[j].item.price && i < j)
  }

  lemma RankedBeforeIsPrecedes(scored: seq<Scored>, i: nat, j: nat)
    requires i < |scored| && j < |scored|
    ensures RankedBefore(scored, i, j) <==> Precedes(RankKeys(scored), i, j)
  {
  }

  lemma RankedBeforeIsPrecedesAll(scored: seq<Scored>)
    ensures forall i: nat, j: nat :: i < |scored| && j < |scored| ==>
      (RankedBefore(scored, i, j) <==> Precedes(RankKeys(scored), i, j))
  {
    forall i: nat, j: nat | i < |scored| && j < |scored|
      ensures RankedBefore(scored, i, j) <==> Precedes(RankKeys(scored), i, j)
    {
      RankedBeforeIsPrecedes(scored, i, j);
    }
  }

  /** The ranking rearranges the scored rows and nothing else: every row
      appears exactly as often as in the catalog. */
  lemma RankedItemsPermutation(items: seq<MenuItem>, chosen: seq<string>, target: int)
    ensures multiset(RankedItems(items, chosen, target)) == multiset(ScoreAll(items, chosen, target))
  {
    var scored := ScoreAll(items, chosen, target);
    SortedIsPermutation(scored, RankKeys(scored));
  }

  /** Every ranked row is a catalog row carrying its own score. */
  lemma RankedItemsRows(items: seq<MenuItem>, chosen: seq<string>, target: int)
    ensures forall s <- RankedItems(items, chosen, target) ::
      s.item in items && s.score == ScoreItem(s.item, chosen, target)
  {
    var ranked := RankedItems(items, chosen, target);
    var order := RankOrder(items, chosen, target);
    forall s <- ranked
      ensures s.item in items && s.score == ScoreItem(s.item, chosen, target)
    {
      var k :| 0 <= k < |ranked| && ranked[k] == s;
      assert s.item == items[order[k]];
    }
  }

  /** The ranking is ordered by score, highest first, then by price, cheapest
      first; rows equal in both keep their catalog order. */
  lemma RankedItemsSorted(items: seq<MenuItem>, chosen: seq<string>, target: int)
    ensures var ranked := RankedItems(items, chosen, target);
      forall k, l :: 0 <= k < l < |ranked| ==>
        || ranked[k].score > ranked[l].score
        || (ranked[k].score == ranked[l].score && ranked[k].item.price <= ranked[l].item.price)
    ensures var ranked, order := RankedItems(items, chosen, target), RankOrder(items, chosen, target);
      forall k, l :: 0 <= k < l < |ranked| ==>
        ranked[k].score == ranked[l].score && ranked[k].item.price == ranked[l].item.price ==>
        order[k] < order[l]
  {
    var scored := ScoreAll(items, chosen, target);
    var keys := RankKeys(scored);
    var order := RankOrder(items, chosen, target);
    var ranked := RankedItems(items, chosen, target);
    forall k, l | 0 <= k < l < |ranked|
      ensures ranked[k].score > ranked[l].score
        || (ranked[k].score == ranked[l].score && ranked[k].item.price <= ranked[l].item.price)
      ensures ranked[k].score == ranked[l].score && ranked[k].item.price == ranked[l].item.price ==>
        order[k] < order[l]
    {
      assert Precedes(keys, order[k], order[l]);
      assert ranked[k] == scored[order[k]] && ranked[l] == scored[order[l]];
    }
  }

  /** The ranking is the only arrangement of the catalog's positions in
      which every row stands before the rows it is ranked before. */
  lemma RankingUnique(items: seq<MenuItem>, chosen: seq<string>, target: int, q: seq<nat>)
    requires multiset(q) == multiset(Range(|items|))
    requires InBounds(q, |items|)
    requires forall a, b :: 0 <= a < b < |q| ==> RankedBefore(ScoreAll(items, chosen, target), q[a], q[b])
    ensures q == RankOrder(items, chosen, target)
    ensures Apply(ScoreAll(items, chosen, target), q) == RankedItems(items, chosen, target)
  {
    var scored := ScoreAll(items, chosen, target);
    var keys := RankKeys(scored);
    RankedBeforeIsPrecedesAll(scored);
    assert Ordered(keys, q);
    SortedPositionsPermutation(keys);
    OrderUnique(keys, q, RankOrder(items, chosen, target));
  }
}
