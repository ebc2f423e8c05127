# Pizza ranker: offers, ranking, sort state and share links

This project models the data and ranking logic of the pizza-ranker page
(`static/index.js`) in Dafny and proves what it promises.

- **Offers.** An offer records a name, an amount of pizzas, a diameter and a unit price. From these it derives:
  - the total area of all pizzas;
  - the total price;
  - the price per unit of area.

  Adding an offer and saving an edit first run an input check: the name must not be blank, and the three numbers must parse and be positive. Offers loaded from a share link skip this check: they are rebuilt from their records and installed as they are.
- **Store.** The page keeps the offers in a store with three operations:
  - adding appends one offer;
  - saving an edit replaces one slot and keeps the old id;
  - deleting removes one slot the way `splice(index, 1)` does.
- **Ranking pass.** After every change, the ranking pass runs:
  - it copies the store and sorts the copy on the chosen column and direction;
  - it walks the copy once and hands out dense ranks, where two neighbours within 0.00001 of each other share a rank;
  - it counts the exactly distinct values of the column;
  - it gives every offer a "value rank" bucket from 1 (best deal) to 6.
- **Sort state.** A click on a column header is a three-way switch:
  - the rank and name columns are ignored;
  - the current column flips direction;
  - any other column becomes the sort column, in ascending order.
- **Share link.** A share link carries only the four typed-in fields of every offer. Opening a link rebuilds every derived field.

Modules:

- `Text` (text.dfy): the whitespace that `String.prototype.trim` removes, and `Trim`.
- `Offers` (offers.dfy): the offer record, the input check and the derived fields, with lemmas about the price per area.
- `Ranking` (ranking.dfy): sort columns, the comparator, the stable sort of the copy, and the ranking walk.
- `RankingProperties` (ranking_properties.dfy):
  - ranks start at 1, step by 0 or 1, leave no gaps and never exceed the distinct-value count;
  - buckets lie in [1,6];
  - the sort is unique;
  - when distinct values are more than the tolerance apart, buckets do not depend on the direction.
- `ShareCodec` (codec.dfy): the projection to shared records, rebuilding, and the round trip.
- `Session` (session.dfy): the class `State` (store, ranked copy and sort state) with the operations that change it.

Numbers are Dafny reals. π is 3.141592653589793, the shortest decimal that reads back as the double `Math.PI` (3.14159265358979311599…). The three parsed numbers are `Parsed` values, either `NaN` or a number, so the input check's NaN tests are kept. The clock is a parameter: `now` is the id a new offer gets. The edit and delete indices are parameters too; the page sets them when it opens its modals.

One behaviour follows from the code: ties are tested between neighbours with a tolerance, but the bucket formula uses the exact count of distinct values.

- `BucketIgnoresDirection` proves that, when distinct values are more than 0.00001 apart, an offer's bucket is the number of distinct values at least as good as its own, capped at 6. So "1 = best" then holds in both directions.
- `NearTieShiftsBuckets` shows what happens otherwise. Two prices per area 0.000001 apart both sit in bucket 1 when sorted ascending. Sorted descending, both sit in bucket 2, and no offer gets bucket 1.
- `TiesChain` shows that ties chain: three values, each within the tolerance of the next, share one rank.

## Model

| member | source | states |
|---|---|---|
| Text.Trim | static/index.js:72 | the result is a slice of the input with only whitespace before and after it; it neither starts nor ends with whitespace, and it is empty exactly when the input is all whitespace |
| Offers.ValidateInputs | static/index.js:71-79 | accepts exactly when the name has a non-whitespace character and amount, diameter and price are all numbers (not NaN) and strictly positive |
| Offers.CalculatePizzaData | static/index.js:81-97 | keeps the four input fields and the id; total price is price times amount; total area is pi times the squared radius times amount; price per area times total area is the total price; all three are positive for positive input |
| Offers.UnitAreaPositive | static/index.js:82-83 | the area of a pizza with positive diameter is positive |
| Offers.UnitAreaMonotone | static/index.js:82-83 | a wider pizza has a strictly larger area |
| Offers.PricePerAreaIsUnitRatio | static/index.js:82-84 | the price per area does not depend on the amount: it is the unit price over one pizza's area |
| Offers.LargerPizzaCheaperPerArea | static/index.js:82-84 | at equal price and amount the larger diameter has the strictly smaller price per area |
| Offers.SingleMargherita | static/index.js:81-97 | one 30-unit pizza at 10 has area between 706.85 and 706.87, total price 10 and price per area between 0.01414 and 0.01415 |
| Ranking.Compare | static/index.js:100-107 | the comparator is zero exactly for equal keys, non-positive exactly when the first offer may come first in the chosen direction, non-negative exactly when the second may |
| Ranking.Sort | static/index.js:100-107 | the sorted copy is a permutation of the store, ordered by the comparator, and offers with equal keys keep their store order |
| Ranking.DistinctKeys | static/index.js:110-111 | every offer's value in the column is among the distinct values, and there are no more of them than offers |
| Ranking.DistinctKeysBound | static/index.js:110-111 | the number of distinct values in a column is at most the number of offers |
| Ranking.ValueRank | static/index.js:126-136 | the bucket is at most 6 and at least 1 for a rank between 1 and the distinct-value count; it counts from the top (min(rank, 6)) for a price column ascending or another column descending, from the bottom (min(maxRank + 1 - rank, 6)) otherwise |
| Ranking.RankPass | static/index.js:113-138 | the walk keeps the sorted order, gives the first offer rank 1 and every later one its predecessor's rank when within 0.00001 of it and one more otherwise, and sets every bucket from the rank and the distinct-value count |
| RankingProperties.RankSteps | static/index.js:113-124 | in a dense ranking entry i has a rank between 1 and i + 1, equal to or one more than its predecessor's |
| RankingProperties.RanksNonDecreasing | static/index.js:113-124 | ranks never decrease along the ranked list |
| RankingProperties.NoGaps | static/index.js:113-124 | every rank from 1 up to an entry's rank is held by an entry at or before it |
| RankingProperties.RankWithinPrefixKeys | static/index.js:110-124 | in a sorted dense ranking an entry's rank is at most the number of distinct keys up to it |
| RankingProperties.RankWithinDistinctKeys | static/index.js:110-124 | every rank lies between 1 and the exact number of distinct key values of the store |
| RankingProperties.BucketsInRange | static/index.js:110-136 | every value rank of a ranking lies in [1, 6] |
| RankingProperties.EqualKeysShareRank | static/index.js:113-124 | offers with exactly equal keys get the same rank |
| RankingProperties.SingleOffer | static/index.js:99-139 | a store of one offer is ranked as that offer with rank 1 and bucket 1 |
| RankingProperties.EmptyStore | static/index.js:99-139 | an empty store has an empty ranking |
| RankingProperties.StableSortIsUnique | static/index.js:100-107 | two sorted permutations of each other that keep equal-key offers in the same order are equal |
| RankingProperties.SortIsTheStableSort | static/index.js:100-107 | any sorted permutation of the store that keeps equal-key offers in store order is the model's sorted copy |
| RankingProperties.RankCountsPrefixKeys | static/index.js:113-124 | with distinct values more than the tolerance apart, an entry's rank is exactly the number of distinct keys up to it |
| RankingProperties.RankIsKeysBeforeCount | static/index.js:110-124 | with separated values, an offer's rank is the number of distinct values that may be listed before or with it |
| RankingProperties.BucketIgnoresDirection | static/index.js:110-136 | with separated values, the bucket is the number of distinct values at least as good a deal as the offer's, capped at 6, in both directions |
| RankingProperties.NearTieShiftsBuckets | static/index.js:110-136 | two offers 0.000001 apart in price per area both get rank 1; both are in bucket 1 ascending and in bucket 2 descending |
| RankingProperties.TiesChain | static/index.js:113-124 | values 0, 0.000008 and 0.000016 all get rank 1 although the first and last are not within the tolerance |
| ShareCodec.ParseInvertsSerialize | static/index.js:28-38 | reading the parameter back gives a record list exactly when the text is the packing of that list, so every other text is caught and gives nothing |
| ShareCodec.Serialize | static/index.js:28 | the packed parameter reads back as exactly the record list that was packed |
| ShareCodec.Simplify | static/index.js:21-26 | one shared record per offer, in store order, carrying its name, amount, diameter and price |
| ShareCodec.Rebuild | static/index.js:38-39 | one offer per record, in order, each built from the record's four fields |
| ShareCodec.Encode | static/index.js:18-29 | there is no parameter exactly when the store is empty; otherwise the parameter reads back as the store's shared records |
| ShareCodec.Decode | static/index.js:31-44 | a missing, empty or unreadable parameter gives nothing; a readable one gives exactly the offers rebuilt from its records, well formed and carrying the id `now` |
| ShareCodec.ShareRoundTrip | static/index.js:18-44 | decoding the encoding of an empty store gives nothing; otherwise it gives the offers in the same order with the same four fields and recomputed derived fields |
| ShareCodec.WellFormedSurviveRoundTrip | static/index.js:18-44 | offers whose derived fields are consistent come back from a link unchanged apart from their id |
| Session.SpliceStart | static/index.js:416 | the splice start is the index itself when in range, counts from the end when negative, and is clamped to the front and to the length |
| Session.SpliceOne | static/index.js:416 | when the normalised start is inside the store, the result is one shorter, keeps every offer before the start in place and shifts every later one forward by one; a start at the end leaves the store unchanged |
| Session.SpliceRemovesSlot | static/index.js:416 | for an index in range the store loses exactly that offer: length one less, earlier offers in place, later ones shifted forward |
| Session.SpliceMinusOneRemovesLast | static/index.js:416 | the index -1 removes the last offer |
| Session.State.constructor | static/index.js:1-15 | the state starts with an empty store and ranking, sorted by price per area ascending |
| Session.State.CalculateRanks | static/index.js:99-139 | the ranked copy is the stable sort of the store and a full ranking of it; the store is not touched |
| Session.State.AddPizza | static/index.js:175-199 | an offer is added exactly when the input check passes; then the store is the old store plus the built offer at the end, otherwise nothing changes; the ranking is refreshed |
| Session.State.SavePizzaEdit | static/index.js:389-413 | refused input changes nothing; an index outside the store changes nothing; otherwise only that slot is replaced by the rebuilt offer, which keeps the old id when it is non-zero; the ranking is refreshed |
| Session.State.ConfirmDeletePizza | static/index.js:415-423 | the store becomes its splice at the index (for an index in range, exactly that offer removed) and the ranking is refreshed |
| Session.State.SortTable | static/index.js:201-217 | rank and name change nothing; the current column flips the direction; another column becomes the sort column ascending; the store is kept and the ranking refreshed |
| Session.State.LoadShared | static/index.js:524-530 | a link that decodes to at least one offer replaces the store and refreshes the ranking; anything else changes nothing |
| Session.State.ShareParam | static/index.js:18-29 | the state has a share parameter exactly when its store is non-empty, and it reads back as the store's shared records |

## Left out

- Offers.CalculatePizzaData: when the area is 0 it stores a price per area of 0. The code divides by zero there and gets NaN or Infinity. With exact reals a zero area comes only from a hand-made link, because the input check refuses amounts and diameters that are not positive. In the code it also arises from an `Infinity` diameter sent through the page's own link, since `JSON.stringify` writes it as `null` and `null / 2` is 0, and from a tiny valid diameter whose square underflows to 0 in floating point.
- Floating-point rounding is not modelled: all numbers are exact reals, and π is the shortest decimal that reads back as `Math.PI`, not the double's exact value.
- `Infinity`, which `parseFloat` accepts and the input check lets through, has no real counterpart. NaN appears only as the parse result the input check rejects.
- Parsing text into numbers (`parseInt`, `parseFloat`) happens before the model: the operations receive the parsed values.
- `Date.now()` is the parameter `now`. Decoding a link gives every rebuilt offer the same `now`. The code reads the clock once per record, so those ids may differ.
- The code writes `rank` and `valueRank` onto the offer objects themselves. Those objects are shared with the store, so the fields also show through `state.pizzas`. The model keeps them in a separate `RankedPizza` record and does not model this aliasing.
- ShareCodec.ShareRoundTrip: the round trip holds for the abstract packing, not for every name in the code. The code percent-encodes the JSON once but decodes it twice: `URLSearchParams.get` decodes, then `decodeURIComponent` decodes again. A name with a `%` that does not start a valid escape, such as `50% off`, makes the second decode throw; the catch returns null and the page starts empty. A name such as `%41` comes back as `A`. The packing here has no text layer, so this is not modelled.
- ShareCodec.Decode: the amount of a shared record is an integer. A hand-written link with a fractional amount such as `"a":1.5` is a genuine record that the code rebuilds; the model cannot represent it.
- JSON serialisation and percent encoding are an abstract, injective packing. A hand-written link whose JSON parses but is not a list of `{n,a,d,p}` records is modelled as unreadable. The code would map it, or fail on it, field by field.
- The page's only `sortTable` callers are its column headers, so a column that is not in the table is not modelled. The `name` column cannot become the sort column: `sortTable` refuses it and the initial column is the price per area.
- `openEditModal` and `openDeleteModal` set the edit and delete indices from the row clicked, through `indexOf`. They belong to the user interface, and the indices are parameters here.
- `updateUrlWithPizzaData`, `generateShareableLink`, `history.replaceState`, the clipboard and the share animation are browser I/O.
- DOM rendering (`updateTable`, `updateCards`, `updateSortIndicators`), modals, keyboard and touch handlers, and `console` output are not modelled.
- main.py, the Flask server that serves the page, is not part of this model.
