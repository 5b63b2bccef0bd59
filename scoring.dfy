/** A catalog row, as the engine reads it. */
module Catalog {

  /** One menu item. `tags` is the parsed tag list of the row (see
      Tags.ParseTags); price and sweetness are whole numbers. */
  datatype MenuItem = MenuItem(
    category: string,
    name: string,
    price: int,
    sweetness: int,
    tags: seq<string>)
}

/**
 * The item scorer (app_final.py:30-36): three points per chosen tag the item
 * carries, a triangular bonus for sweetness close to the target, and two
 * points for the "popular" tag.
 */
module Scoring {
  import opened Catalog

  /** The distinguished "popular" tag. */
  const Popular: string := "#인기"

  function TagSet(tags: seq<string>): set<string>
  {
    set t | t in tags
  }

  /** `len(set(item_tags) & set(chosen_tags))`. */
  function TagMatch(itemTags: seq<string>, chosen: seq<string>): nat
  {
    |TagSet(itemTags) * TagSet(chosen)|
  }

  /** `max(0, 3 - abs(sweetness - target))`: 3 on an exact match, one point
      less per unit of distance, never negative. */
  function SweetnessFit(sweetness: int, target: int): (fit: int)
    ensures 0 <= fit <= 3
    ensures fit == 3 <==> sweetness == target
    ensures fit == 0 <==> (sweetness - target >= 3 || target - sweetness >= 3)
  {
    var diff := if sweetness >= target then sweetness - target else target - sweetness;
    if 3 - diff > 0 then 3 - diff else 0
  }

  function PopularityBonus(itemTags: seq<string>): int
  {
    if Popular in itemTags then 2 else 0
  }

  /** `score_item`. */
  function ScoreItem(item: MenuItem, chosen: seq<string>, target: int): (score: int)
    ensures 0 <= score <= 3 * |chosen| + 5
  {
    TagMatchCounts(item.tags, chosen);
    3 * TagMatch(item.tags, chosen) + SweetnessFit(item.sweetness, target) + PopularityBonus(item.tags)
  }

  /** An independent count of the tag matches: walk the chosen tags and count
      each distinct one the item carries (at its last occurrence). */
  function CountCarried(chosen: seq<string>, itemTags: seq<string>): (n: nat)
    ensures n <= |chosen|
  {
    if chosen == [] then 0
    else
      (if chosen[0] in itemTags && chosen[0] !in chosen[1..] then 1 else 0)
      + CountCarried(chosen[1..], itemTags)
  }

  lemma TagSetCons(c: string, rest: seq<string>)
    ensures TagSet([c] + rest) == {c} + TagSet(rest)
  {
  }

  lemma IntersectAdd(a: set<string>, b: set<string>, c: string)
    ensures c in b ==> a * ({c} + b) == a * b
    ensures c !in a ==> a * ({c} + b) == a * b
    ensures c in a && c !in b ==> |a * ({c} + b)| == |a * b| + 1
  {
    if c in a && c !in b {
      assert a * ({c} + b) == (a * b) + {c};
    }
  }

  /** The set-intersection count of score_item is the number of distinct
      chosen tags the item carries. */
  lemma {:induction false} TagMatchCounts(itemTags: seq<string>, chosen: seq<string>)
    ensures TagMatch(itemTags, chosen) == CountCarried(chosen, itemTags)
  {
    if chosen != [] {
      var c, rest := chosen[0], chosen[1..];
      TagMatchCounts(itemTags, rest);
      assert chosen == [c] + rest;
      TagSetCons(c, rest);
      IntersectAdd(TagSet(itemTags), TagSet(rest), c);
    }
  }

  /** The score in closed form, with the tag matches counted independently. */
  lemma ScoreFormula(item: MenuItem, chosen: seq<string>, target: int)
    ensures ScoreItem(item, chosen, target)
      == 3 * CountCarried(chosen, item.tags)
         + SweetnessFit(item.sweetness, target)
         + (if Popular in item.tags then 2 else 0)
  {
    TagMatchCounts(item.tags, chosen);
  }

  /** The sweetness bonus never grows as the distance to the target grows. */
  lemma SweetnessFitMonotone(s1: int, s2: int, target: int)
    requires (if s1 >= target then s1 - target else target - s1)
          <= (if s2 >= target then s2 - target else target - s2)
    ensures SweetnessFit(s1, target) >= SweetnessFit(s2, target)
  {
  }

  /** With no chosen tags the score is the sweetness bonus plus the
      popularity bonus; so an item at the target sweetness scores 3, or 5 when
      it is popular. */
  lemma ScoreWithoutChosenTags(item: MenuItem, target: int)
    ensures ScoreItem(item, [], target)
      == SweetnessFit(item.sweetness, target) + (if Popular in item.tags then 2 else 0)
    ensures item.sweetness == target ==>
      ScoreItem(item, [], target) == (if Popular in item.tags then 5 else 3)
  {
    ScoreFormula(item, [], target);
  }

  /** When the chosen tags have no repeats (a multiselect gives none), the
      match count reaches its maximum |chosen| exactly when the item carries
      every chosen tag. */
  lemma {:induction false} CountCarriedAll(chosen: seq<string>, itemTags: seq<string>)
    requires forall i, j :: 0 <= i < j < |chosen| ==> chosen[i] != chosen[j]
    ensures CountCarried(chosen, itemTags) == |chosen| <==> forall c <- chosen :: c in itemTags
  {
    if chosen != [] {
      assert forall i, j :: 0 <= i < j < |chosen[1..]| ==> chosen[1..][i] != chosen[1..][j] by {
        forall i, j | 0 <= i < j < |chosen[1..]|
          ensures chosen[1..][i] != chosen[1..][j]
        {
          assert chosen[1..][i] == chosen[i + 1] && chosen[1..][j] == chosen[j + 1];
        }
      }
      CountCarriedAll(chosen[1..], itemTags);
      assert chosen[0] !in chosen[1..];
      assert chosen == [chosen[0]] + chosen[1..];
    }
  }
}
