# Carbon tracker core, modelled in Dafny

The carbon tracker is a small web service. It records a user's daily travel
distance, energy use and diet, and turns them into kilograms of CO2. Beneath
the HTTP and database layers it holds four pieces of in-memory logic. This
project models them and proves their properties:

- `bst.dfy`, module `TrendIndex`, models the date-keyed binary search tree (`bst.py`).
  - A trend query inserts one day's total per row and reads the days back in date order.
  - The pure `Tree` datatype, with `InsertT`, `Inorder`, `Keys` and `ToMap`, is the specification.
  - The classes `Node` and `BST` are the pointer structure the source mutates. Their methods are proved against that specification.
- `trie.py`'s suggestion trie is in `trie.dfy`, module `SuggestionIndex`.
  - A `View` maps every path that exists in the trie to the list held at its end. The list is empty for a node that was only created on the way to a longer key.
  - `Lookup` and `Store` on views specify `search` and `insert`. The classes `TrieNode` and `Trie` implement them with ghost `Paths` and `Repr`.
  - `Build` and `LastFor` describe a whole sequence of inserts.
- `app.dfy`, module `App`, covers the in-memory parts of `app.py`:
  - the emission calculator with its factor tables;
  - the non-negativity check of the footprint handler;
  - the in-place bubble sort that ranks one day's breakdown;
  - the start-up seeding of the eco-tip trie;
  - the lower-casing of a suggestion prefix before the trie search.

The calculator's factors are exact `real`s. Dates are `int`s. Suggestion
lists are immutable `seq<string>` values.

## Model

| member | source | states |
|---|---|---|
| TrendIndex.InsertKeys | bst.py:22-35 | An insert adds exactly its date to the tree's set of dates. |
| TrendIndex.InsertPreservesSearchTree | bst.py:22-34 | An insert keeps the ordering: smaller dates on the left, larger on the right. |
| TrendIndex.ContainsIsMembership | bst.py:25-35 | In an ordered tree, the insert walk meets a node with the date exactly when the date is stored. |
| TrendIndex.ContainsMeansNoOp | bst.py:35 | If the walk meets an equal date, the insert leaves the tree unchanged. |
| TrendIndex.DuplicateInsertIsNoOp | bst.py:35 | Inserting a date already stored changes nothing, so the first value for a date is kept. |
| TrendIndex.InsertMap | bst.py:14-35 | As a dictionary, an insert adds a new date with its value and leaves every stored date's value alone. |
| TrendIndex.InsertExtends | bst.py:25-34 | An insert keeps every existing node's date and value in place. It adds one node when the date is new and none otherwise. |
| TrendIndex.FirstInsert | bst.py:16-18 | The first insert into an empty tree makes a root with no children, which traverses to that single entry. |
| TrendIndex.InorderLength | bst.py:46-52 | The traversal has one entry per node, and one node per distinct stored date. |
| TrendIndex.InorderAscending | bst.py:37-52 | The traversal of an ordered tree is strictly ascending by date. |
| TrendIndex.InorderMatchesMap | bst.py:46-52 | An entry is in the traversal exactly when its date is stored with its value. |
| TrendIndex.BuildTreeKeepsFirst | app.py:248-253 | Inserting any rows in order gives an ordered tree holding, per date, the value of the first row with that date. |
| TrendIndex.Node.constructor | bst.py:3-7 | A new node holds its date and value and has no children. |
| TrendIndex.BST.constructor | bst.py:11-12 | A new tree has no root and is empty. |
| TrendIndex.BST.Insert | bst.py:14-20 | Insert makes the root when the tree is empty and hands over to the recursive walk otherwise. The new contents are `InsertT` of the old, and the tree stays ordered. |
| TrendIndex.BST.InsertRecursive | bst.py:22-35 | The walk hangs the new node on the first empty slot on its side, or drops it on an equal date. The subtree becomes `InsertT` of the old one, and its footprint grows by the node only when the date is new. |
| TrendIndex.BST.GetInorderTraversal | bst.py:37-44 | The traversal is the in-order list of the tree. It is strictly ascending, has one entry per date, and matches the stored values. |
| TrendIndex.BST.InorderRecursive | bst.py:46-52 | The result is the accumulated list followed by the subtree's entries in order: left, node, right. |
| TrendIndex.TraversalExamples | bst.py:11-52 | An empty tree traverses to `[]`. After one insert it traverses to that one entry. |
| TrendIndex.Trend | app.py:248-256 | Inserting the rows into a fresh tree in fetch order and traversing gives the list ascending by date, holding each date's first total. |
| SuggestionIndex.AddPathFacts | trie.py:17-20 | Walking a key adds exactly its prefixes as paths. New nodes hold no suggestions, and existing lists are untouched. |
| SuggestionIndex.LookupStore | trie.py:14-35 | Read-your-write: after `insert(k, s)`, `search(k)` returns `s`. Every other key returns what it returned before. |
| SuggestionIndex.StoreTwice | trie.py:23 | A second insert of the same key replaces the first list; nothing is merged. |
| SuggestionIndex.StorePrefixClosed | trie.py:17-20 | After an insert, the parent of every present path is still present. |
| SuggestionIndex.MissingStep | trie.py:29-31 | If one step of the prefix is missing, the key is absent, so `search` returns `[]`. |
| SuggestionIndex.ReplayAppend | app.py:116-175 | Inserting one batch of keys and then another is inserting their concatenation. |
| SuggestionIndex.LookupBuild | trie.py:14-35 | After any sequence of inserts, a search returns the last list inserted for exactly that key. A key never inserted returns `[]`, even when its path exists as a prefix of a longer key. |
| SuggestionIndex.LastForNever | trie.py:14-23 | No insert of a key means no list for it. |
| SuggestionIndex.LastForAt | trie.py:23 | The list of the last insert of a key is the one that counts. |
| SuggestionIndex.TrieNode.constructor | trie.py:3-6 | A new node has no children and no suggestions. |
| SuggestionIndex.Trie.constructor | trie.py:10-11 | A new trie is only its root, holding no suggestions. |
| SuggestionIndex.Trie.ContentsPaths | trie.py:17-20 | The paths of a trie are prefix-closed. |
| SuggestionIndex.Trie.AddChild | trie.py:18-19 | The missing child for a character is created with no suggestions. No other path or list changes. |
| SuggestionIndex.Trie.Insert | trie.py:14-23 | Insert creates the missing nodes along the key and overwrites the list at its end, i.e. `Store`. The empty key stores at the root. |
| SuggestionIndex.Trie.SetSuggestions | trie.py:23 | Overwrites the list at one node only. |
| SuggestionIndex.Trie.Search | trie.py:26-35 | Search returns `Lookup` of the contents: `[]` when the path is missing, and otherwise the node's list. It modifies nothing. |
| App.Lower | app.py:213 | Lower-casing keeps the length and leaves no upper-case letter. It agrees letter by letter with the input up to case. |
| App.LowerOfLower | app.py:40-43 | A string with no upper-case letter is its own lower-case form. |
| App.LowerIdempotent | app.py:213 | Lower-casing twice is lower-casing once. |
| App.ModeFactor | app.py:23-40 | The transport factor is one of the table's values and non-negative. An unknown mode gets the car factor 0.20. |
| App.FoodFactor | app.py:33-43 | The food part is one of 5.0, 3.0, 1.5 and 1.0. An unknown diet counts as meat. |
| App.CalculateEmissions | app.py:21-48 | The total is exactly the sum of the travel, energy and food parts. The food part is one of the four factors. |
| App.CaseInsensitive | app.py:40-43 | Letter case of the mode and the diet does not change the breakdown. |
| App.UnknownModeIsCar | app.py:29-40 | Any unknown mode, the empty string included, gives the same breakdown as "car". |
| App.EnergyPartOnlyFromKwh | app.py:32-42 | The energy part is `energy_kwh * 0.5`, whatever the mode or diet. |
| App.NonNegativeBreakdown | app.py:23-46 | Non-negative distance and energy give non-negative travel and energy parts, and positive food and total. |
| App.CalculatorExamples | app.py:21-48 | Three cases: 10 km by car on a meat diet gives 2.0 + 0 + 5.0 = 7.0. A vegan who cycles gives 1.0. "Dairy" with "scooter" equals "dairy" with "car". |
| App.CheckAndCalculate | app.py:68-74 | The footprint is accepted exactly when distance and energy are both non-negative. An accepted breakdown is non-negative and sums to its total. |
| App.SwapAt | app.py:275 | The neighbours at `j` and `j + 1` are exchanged and nothing else changes. |
| App.SwapStep | app.py:274-275 | A swap of a strictly smaller element with its neighbour keeps the pass state and carries the smaller element on. |
| App.SwapArranged | app.py:274-275 | Swapping two unequal neighbours keeps the result a rearrangement of the input, and keeps it stable. |
| App.KeepStep | app.py:274 | Leaving an ordered pair alone also carries the smallest element on. |
| App.PassDone | app.py:273 | After a pass, the smallest element of the unsorted head sits at its end. |
| App.BubblePass | app.py:273-275 | One pass of the inner loop extends the sorted tail by one. It keeps the multiset, the rearrangement and stability. |
| App.BubbleSort | app.py:270-276 | The list ends sorted non-increasing by emission, as a permutation of the input. Elements with equal emission keep their input order, because the swap fires only on a strict `<`. |
| App.Parts | app.py:311-315 | The handler's list is Travel, Energy, Food, in that order. |
| App.ArrangedParts | app.py:311-317 | A stable rearrangement of the three parts repeats no label and keeps ties in the order Travel, Energy, Food. |
| App.Rank | app.py:303-317 | The ranking is the three parts largest first: a permutation with distinct labels, and ties in the order Travel, Energy, Food. |
| App.RankExamples | app.py:311-317 | Ranking 5, 2, 9 gives Food, Travel, Energy. Ranking 3, 3, 1 keeps Travel before Energy. |
| App.EcoTipsGroups | app.py:115-175 | The seeding table is the transport, food, energy, waste and water groups in source order: 13 rows. |
| App.SeedEcoTrie | app.py:115-175 | The seeded trie is valid, and its contents are those of inserting the 13 rows in order into a fresh trie. |
| App.InsertRow | app.py:116-175 | One seeding insert adds the next row of the table to the contents. |
| App.SeedTransport | app.py:116-128 | Inserts "car", "bike" and "plane" with their tips. |
| App.SeedFood | app.py:130-143 | Inserts "lamb", "dairy" and "packaged_food" with their tips. |
| App.SeedEnergy | app.py:145-153 | Inserts "lights" and "ac" with their tips. |
| App.SeedWaste | app.py:155-166 | Inserts "plastic_bags", "single_use_straws" and "bottles" with their tips. |
| App.SeedWater | app.py:168-175 | Inserts "shower" and "tap" with their tips. |
| App.EcoTipsKeys | app.py:116-175 | "car" is inserted once, first. Neither "ca" nor "zzz" is ever inserted. |
| App.EcoTipsLookups | app.py:116-120 | After seeding, a search for "car" returns the three car tips. A search for "ca", a bare prefix, returns `[]`, and so does "zzz". |
| App.Suggest | app.py:213-215 | The suggestion lookup searches the lower-cased prefix. |
| App.SuggestExamples | app.py:213-228 | On the seeded trie, "Car" gives the three car tips, while "CA" and "zZz" give nothing. |

## Left out

- HTTP routes, request parsing, JSON responses, status codes and CORS (app.py:50-113, 178-268, 278-334) are not modelled. The calculator, check, ranking, seeding and lookup they call are.
- The missing-field check on `uid` and `rdate` (app.py:66) is not modelled. It concerns request fields outside the modelled inputs.
- MySQL access (cursor, execute, commit, fetch) is external I/O. Fetched rows are a parameter: `TrendIndex.Trend` takes them as a sequence of entries.
- `round(x, 2)` and IEEE floating point: amounts are exact reals, and no rounding is modelled. This includes the rounding of each trend total and of the ranked parts.
- TrendIndex.Trend: takes each row's total as already computed. The per-row call to the calculator and its rounding (app.py:250-253) are not part of it.
- Logging, debug output and tracebacks are not modelled; they have no effect on the computed values.
- Python list aliasing: the trie stores the caller's list object and `search` hands the same object back. Lists are immutable sequences here, so later mutation of such a list by a caller is not captured.
- The traversal accumulator: `_inorder_recursive` appends to one shared list. `BST.InorderRecursive` threads it as a value, passed in and returned.
- The `bubble_sort` return value is the same list object it sorted. `App.BubbleSort` sorts the array in place and returns nothing but a ghost permutation.
- Dates are `int`s rather than `datetime` objects; only their total order matters.
- `str.lower()` is modelled on ASCII letters only; other Unicode case mappings are not.
- The global `eco_trie` is the trie returned by `App.SeedEcoTrie`, not a module-level variable. The seeding inserts are grouped by the source's comment headings into one method per group; the order of the inserts is unchanged.
