# Lucy Bakery recommendation engine, in Dafny

This project models the recommendation engine of the Lucy Bakery menu app
(`app_final.py`). The engine has four parts; each is modelled here, and the
properties listed under "## Model" are proved about the model:

- **Tag parsing** (`tags.dfy`, module `Tags`). This covers line 19 of `load_menu`. The raw
  tag field of a catalog row is split at commas, and each piece is stripped of
  surrounding whitespace. Pieces that end up empty are dropped. A missing field
  counts as the empty string.
- **The item scorer** (`scoring.dfy`, modules `Catalog` and `Scoring`). This is `score_item`.
  An item earns three points for every chosen tag it carries. It earns the
  triangular bonus `max(0, 3 - |sweetness - target|)`, and two more points for
  the `#인기` ("popular") tag.
- **The ranker** (`ranking.dfy`, module `Ranking`). This is `ranked_items`. Every catalog
  row gets its score, and the rows are then sorted by score (highest first) and
  then by price (cheapest first). The sort is stable, so rows equal in both keep
  their catalog order. The stable sort itself lives in `stable_sort.dfy`
  (module `StableSort`).
- **The budget combo search** (`combos.dfy`, module `Combos`). This is `recommend_combos`.
  1. The twelve best-ranked rows are the candidates.
  2. Every subset of one, two or three of them is tried, in the order
     `itertools.combinations` yields them. The enumeration and its order live
     in `subsets.dfy` (module `Subsets`).
  3. The subsets whose total price is at most the budget are kept.
  4. These are sorted stably by score (highest first), then total (cheapest
     first), then size (largest first).
  5. The sorted list is walked. Each combo whose sorted tuple of item names
     has not been seen yet is kept, and the walk stops at three.

The pure parts are functions: `Tags.ParseTags`, `Scoring.ScoreItem`,
`Ranking.RankedItems` and `Combos.Recommendation`.

`recommend_combos` works by mutation: its nested loops append to a list, it
sorts that list, and its dedup loop updates a `seen` set and an `out` list. So
it is modelled as the method `Combos.RecommendCombos`, built from loop methods.
Each loop method is proved equal to a specification function:

- `CollectFeasible` and `AppendFeasibleOfSize` are proved equal to `Feasible`.
- `KeepFirstDistinct` is proved equal to `FirstDistinct`.

The properties the source promises are then proved as lemmas about those
functions. A few generic facts about sequences live in `seqs.dfy` (module
`Seqs`).

### How the model represents the source

- **Catalog and candidates.** A DataFrame is a sequence of `MenuItem` records.
  The reset index of the ranked frame is the position in the sequence. A
  candidate subset is a strictly increasing sequence of positions.
- **Stable sorts.** A stable sort by a key is modelled as a sort of positions
  by the pair (key, original position). `StableSort.OrderUnique` shows that
  this order is the only arrangement consistent with those keys.
- **Dedup signature.** The signature `tuple(sorted(names))` is modelled by the
  multiset of names. Two sorted tuples are equal exactly when the names agree as
  multisets.

## Model

| member | source | states |
|---|---|---|
| Tags.Split | app_final.py:19 | a split always yields at least one piece, so an empty field gives the single piece `""` |
| Tags.SplitPieces | app_final.py:19 | no piece of `s.split(",")` contains the separator, and every character of a piece comes from the input |
| Tags.JoinSplit | app_final.py:19 | joining the split pieces with the separator gives the field back |
| Tags.SplitJoin | app_final.py:19 | splitting a join of separator-free pieces gives those pieces back, so the split is the unique cut into separator-free pieces |
| Tags.StripLeft | app_final.py:19 | leading whitespace is removed: the result is a suffix that is empty or starts with a non-space, and everything cut off is whitespace |
| Tags.StripRight | app_final.py:19 | trailing whitespace is removed: the result is a prefix that is empty or ends with a non-space, and everything cut off is whitespace |
| Tags.Strip | app_final.py:19 | a stripped string neither starts nor ends with whitespace |
| Tags.StripIsInfix | app_final.py:19 | `t.strip()` is an infix of `t` with only whitespace outside it, and it neither starts nor ends with whitespace |
| Tags.StripPadded | app_final.py:19 | stripping whitespace padding around a trimmed string gives that string back |
| Tags.NonBlankStripped | app_final.py:19 | the comprehension never yields more tags than there are pieces |
| Tags.ParseTags | app_final.py:19 | every parsed tag is non-empty, has no surrounding whitespace and contains no comma |
| Tags.ParseTagsOfJoin | app_final.py:19 | the tags are exactly the stripped comma-separated pieces, in their original order, with blank pieces dropped |
| Tags.ParseTagsRoundTrip | app_final.py:19 | well-formed tags written as a comma-separated field parse back to the same list |
| Tags.BlankFieldHasNoTags | app_final.py:19 | a missing field (`fillna("")`), an empty field, or one of only commas and whitespace gives no tags |
| Scoring.SweetnessFit | app_final.py:33-34 | the sweetness bonus lies in 0..3; it is 3 exactly on a match and 0 exactly when the distance is 3 or more |
| Scoring.SweetnessFitMonotone | app_final.py:33-34 | the bonus never grows as the distance to the target grows |
| Scoring.ScoreItem | app_final.py:30-36 | the score is never negative and at most 3 per chosen tag plus 5 |
| Scoring.TagMatchCounts | app_final.py:31-32 | the set-intersection size equals the number of distinct chosen tags the item carries, counted independently |
| Scoring.ScoreFormula | app_final.py:30-36 | the score equals 3 × matched tags + sweetness bonus + 2 if popular, with matches counted independently |
| Scoring.ScoreWithoutChosenTags | app_final.py:30-36 | with no chosen tags the score is the sweetness bonus plus the popularity bonus; at the target sweetness it is 3, or 5 for a popular item |
| Scoring.CountCarriedAll | app_final.py:31-32 | with distinct chosen tags, the match count reaches its maximum exactly when the item carries every chosen tag |
| StableSort.SortedPositions | app_final.py:42 | the sorted positions are valid and each one stands before the next by (key, original position) |
| StableSort.OrderUnique | app_final.py:42 | two stable-sorted arrangements of the same positions are identical |
| StableSort.SortedIsPermutation | app_final.py:42 | the elements at the sorted positions are a permutation of the input |
| StableSort.SortedPositionsPermutation | app_final.py:42 | the sorted positions are a permutation of 0..n-1 |
| StableSort.SortedPositionsDistinct | app_final.py:42 | no position is listed twice |
| Ranking.ScoreAll | app_final.py:41 | every row is paired with its own `score_item` value, in catalog order |
| Ranking.RankKeyOrder | app_final.py:42 | the key `(-score, price)` puts a higher score first and, on equal scores, a lower price first; keys tie exactly when both agree |
| Ranking.RankedItems | app_final.py:38-43 | the ranking has as many rows as the catalog, so empty input gives empty output |
| Ranking.RankedItemsPermutation | app_final.py:38-43 | the ranking is a permutation of the scored rows |
| Ranking.RankedItemsRows | app_final.py:41-42 | every ranked row is a catalog row carrying its own score |
| Ranking.RankedItemsSorted | app_final.py:42 | the ranking is ordered by score descending, then price ascending, and rows equal in both keep their catalog order |
| Ranking.RankingUnique | app_final.py:42 | any arrangement that is a permutation and respects the ranked-before order is exactly the ranking |
| Combos.Candidates | app_final.py:47 | the candidates are the first min(12, n) ranked rows |
| Combos.CandidatesFromCatalog | app_final.py:47 | every candidate is a catalog row carrying its own score |
| Combos.CandidatesDistinctNames | app_final.py:47 | when no two catalog rows share a name, no two candidates do |
| Subsets.Combinations | app_final.py:52 | every enumerated subset has r positions, strictly increasing, all within range |
| Subsets.CombinationsComplete | app_final.py:52 | every strictly increasing sequence of r positions in range is enumerated |
| Subsets.CombinationsDistinct | app_final.py:52 | no subset is enumerated twice |
| Subsets.CombinationsLexSorted | app_final.py:52 | the subsets of one size come in strictly increasing lexicographic order, as `itertools.combinations` yields them |
| Subsets.CombinationsCount | app_final.py:52 | there are C(m, r) subsets of size r |
| Subsets.SubsetsUpTo | app_final.py:51-52 | the visited subsets have 1 to r increasing positions within range |
| Subsets.SubsetsComplete | app_final.py:51-52 | every non-empty increasing sequence of at most r positions is visited |
| Combos.SubsetsCount | app_final.py:51-52 | C(m,1) + C(m,2) + C(m,3) subsets are visited, which is 298 for twelve candidates |
| Subsets.SubsetsVisitOrder | app_final.py:51-52 | the loops visit all subsets of size 1, then size 2, then size 3, each size in lexicographic order |
| Subsets.SubsetsDistinct | app_final.py:51-52 | no subset is visited twice |
| Combos.MakeCombo | app_final.py:53-57 | a combo holds exactly the candidates at its positions; its size is their count, its total their price sum, its score their score sum |
| Combos.TotalPriceBound | app_final.py:54 | with no negative prices, a total is non-negative and at least each member's price |
| Combos.Feasible | app_final.py:51-57 | the feasible list never exceeds the number of visited subsets |
| Combos.FeasibleMembers | app_final.py:53-57 | a combo is in the feasible list exactly when it comes from a visited subset and its total is at most the budget |
| Combos.FeasibleIdsDistinct | app_final.py:51-57 | two feasible combos come from different subsets |
| Combos.FeasibleShape | app_final.py:51-57 | every feasible combo is 1 to 3 distinct candidates in increasing position order, with price and score sums and a total within budget |
| Combos.FeasibleVisitOrder | app_final.py:49-57 | `combos` lists the feasible combos in the order their subsets were visited |
| Combos.CollectFeasible | app_final.py:49-57 | the nested loops leave in `combos` exactly the feasible combos, in visiting order |
| Combos.AppendFeasibleOfSize | app_final.py:52-57 | the inner loop, given the subsets of one size in enumeration order, appends exactly the feasible combos among them, in that order |
| Combos.SortCombos | app_final.py:62 | sorting keeps the number of combos |
| Combos.ComboKeyOrder | app_final.py:62 | the key `(-score, total, -r)` puts a higher score first, then a lower total, then more items; a combo may stand before another exactly when the other's key is not smaller |
| Combos.SortCombosCorrect | app_final.py:62 | the sorted list is a permutation, ordered by score descending, total ascending, size descending, and stable on equal keys |
| Combos.SortTiesKeepVisitOrder | app_final.py:62 | when the input is in visiting order, combos with equal keys come out in lexicographic order of their positions |
| Combos.SortedTiesInCombinationOrder | app_final.py:49-62 | among the sorted feasible combos, those tied on (score, total, size) stand in the lexicographic order `itertools.combinations` produced them in, which decides which of them make the cut at three |
| Combos.SignatureNames | app_final.py:65 | the signature holds one name per item of the combo, and every item's name |
| Combos.FirstDistinct | app_final.py:63-71 | the dedup walk keeps at most its room |
| Combos.FirstDistinctPicks | app_final.py:63-71 | the walk keeps a subsequence of its input; each kept combo is the first with its signature, no kept signature had been seen before, and every combo passed over before a kept one has a signature seen before or kept ahead of it |
| Combos.FirstDistinctMaximal | app_final.py:63-71 | when the walk stops short of its room, every signature of its input was seen before or kept |
| Combos.FirstDistinctAllNew | app_final.py:63-71 | when every signature is new, the walk keeps the first `room` combos |
| Combos.KeepFirstDistinct | app_final.py:63-71 | the dedup loop, with its `continue` and its `break` at three, computes exactly the walk |
| Combos.RecommendCombos | app_final.py:46-72 | the method returns exactly the recommendation, including the early `[]` for no feasible combo; `topk` plays no part |
| Combos.Dedup | app_final.py:62-71 | at most three combos come back, whatever `topk` is |
| Combos.DedupPicks | app_final.py:62-71 | the result is a subsequence of the sorted feasible list, each combo the first of its names there, taken from the feasible list, and no combo with new names is passed over before a kept one |
| Combos.DedupFromInput | app_final.py:62-71 | every returned combo is one of the feasible combos |
| Combos.DedupDistinct | app_final.py:63-71 | at most three combos come back, and no two have the same sorted name tuple |
| Combos.DedupOrdered | app_final.py:62-71 | the result is ordered by score descending, then total ascending, then size descending |
| Combos.DedupBest | app_final.py:62-71 | each returned combo is at least as good as every feasible combo with the same names, and the first is at least as good as every feasible combo |
| Combos.DedupBestOfRest | app_final.py:62-71 | the k-th returned combo is at least as good as every feasible combo whose names differ from those of the combos returned ahead of it: the result is the best combo of each of the first three distinct name tuples |
| Combos.DedupMaximal | app_final.py:63-71 | when fewer than three come back, every feasible combo's names are among the returned ones |
| Combos.DedupEmptyIff | app_final.py:59-71 | nothing comes back exactly when the feasible list is empty |
| Combos.DedupAllDistinct | app_final.py:63-71 | when no two feasible combos share names, the result is the first three of the sorted list |
| Combos.Recommendation | app_final.py:46-72 | at most three combos come back, and none exactly when no subset fits the budget |
| Combos.RecommendationSound | app_final.py:46-57 | every returned combo has 1 to 3 distinct candidates; its total is their price sum and at most the budget, and its score is their score sum |
| Combos.ComboFeasibleIff | app_final.py:54-55 | a subset of candidates is feasible exactly when its total is at most the budget, so a combo costing exactly the budget is kept |
| Combos.FeasibleIffCheapCandidate | app_final.py:51-57 | with no negative prices, some subset fits exactly when some candidate alone fits |
| Combos.RecommendationEmptyIff | app_final.py:59-60 | the result is empty exactly when no subset fits; with no negative prices, exactly when every candidate costs more than the budget |
| Combos.AllOverBudgetGivesNothing | app_final.py:136-139 | the caller's pre-check is sound: when every row costs more than the budget, no combo comes back |
| Combos.SignatureDeterminesIds | app_final.py:64 | with distinct candidate names, a combo's sorted name tuple determines its candidates |
| Combos.FeasibleSignaturesDistinct | app_final.py:51-64 | with distinct candidate names, no two feasible combos share a name tuple |
| Combos.SortCombosKeepsDistinct | app_final.py:62 | sorting keeps name tuples pairwise distinct |
| Combos.DistinctNamesKeepTopThree | app_final.py:46-72 | when no two catalog rows share a name, dedup drops nothing and the result is the first three sorted feasible combos |

## Left out

- The Streamlit user interface and page routing (app_final.py:8, 74-158): widgets, tabs, session state, toasts and `show_combo`. This is presentation only.
- The `enforce_max3` callback (app_final.py:124-130). It changes UI session state. The engine does not rely on the limit, so the model puts no bound on the number of chosen tags.
- CSV loading and the required-columns check of `load_menu` (app_final.py:12-18, 22). These are file I/O, so the model starts from parsed `MenuItem` records.
- The image-existence check (app_final.py:99-104). It is file-system I/O.
- The `float(...)` at app_final.py:56. It only wraps a sum of integers, so scores are `int`. Likewise `int(...)` at lines 33 and 54 is taken as the identity on integer columns.
- Prices, sweetness, budget and scores are unbounded integers. pandas' 64-bit column arithmetic cannot overflow at menu scale.
- `Combos.Signature` stands for `tuple(sorted(names))`; string sorting is not modelled. Two sorted tuples are equal exactly when the name multisets are equal, so the dedup decision is the same.
- `Combos.RecommendCombos`: `combos.sort(...)` sorts in place. The model replaces the list with its stably sorted copy (`SortCombos`); the Timsort internals are not modelled.
- pandas and `itertools` internals. `sort_values` on two columns and `list.sort` are modelled as stable sorts by their keys, and `itertools.combinations` as an explicit lexicographic enumeration of positions.
- `Combos.AllOverBudgetGivesNothing`: requires that no price is negative, which the source never checks. With negative prices, two items that each exceed the budget can together fit it.
- The pre-check at app_final.py:136 compares the budget with the cheapest bakery row. The search draws only from the top twelve ranked rows, so passing the pre-check does not guarantee a combo. The source handles that case with the empty-result message at lines 140-141, and `Combos.RecommendationEmptyIff` states when it happens.
- The `topk` argument of `recommend_combos` is accepted but plays no part: the result is always capped at three (app_final.py:70), and the model takes no such parameter into account.
- Dedup identity is the sorted tuple of names (app_final.py:65), which keeps repeated names; the model uses the multiset of names, not the set.
- "Every item over budget gives no result" holds only when no price is negative, and the lemmas state it with that assumption.
