# Meal planner core, modelled in Dafny

This project models the two pieces of logic in the MealPlanner notebook
application.

- **The recipe parser (`parse_data`).** It finds the ingredient columns of an
  uploaded recipe table by their `"Ingredients: "` header prefix and renames
  them to their category. It fills missing cells with the empty string and
  cleans every ingredient cell through a fixed chain of rewrites. It builds the
  ingredient → category map, joins each row's ingredient cells into one
  `Ingredients` string, and adds one count column per vocabulary token.
- **The meal-plan builder (`get_meal_plan`).** A non-empty saved plan is looked
  up by recipe name. Otherwise the selected seed recipes are grown one recipe at
  a time. Each step adds the candidate with the highest score, where the score
  is its overlapping ingredient count divided by its total ingredient count,
  times a random draw. Growth stops when the plan reaches the requested size,
  and the plan is then sorted. The names of the resulting plan are kept as the
  session's current meal plan.

The project has three files:

- `text.dfy` (module `Text`): the Python and pandas string operations the
  parser chains together. These are literal `str.replace`, the
  regular-expression rewrite `c{2,}`, `str.strip`, `str.split`, ASCII
  `str.lower` and Python's string order.
- `parse.dfy` (module `Parse`): `parse_data`.
  - Cleaning and the type map are functions.
  - The column-by-column cleaning loop is the method `CleanIngredientColumns`,
    proved equal to the function `CleanedRows`.
  - The whole parse is the method `ParseData`, proved equal to the function
    `ParseSpec`.
- `plan.dfy` (module `Plan`): the scores, the arg-max step and `Grown`, the
  reference definition of growth.
  - The growth loop is the method `GrowPlan`, proved against `Grown` and
    sorting.
  - What the builder returns is the function `MealPlan`, and the lemma
    `MealPlanPaths` states its paths.
  - The global `current_meal_plan` is the field of the class `Session`. Its
    method `GetMealPlan` returns `MealPlan` and updates that field.

In the model:

- A recipe table reaches the builder as its recipe names plus one `seq<nat>`
  count vector per row. Row order is the recipe id.
- The random draws are a parameter: `weights[k][i]` is the draw for row `i`
  in growth step `k`. Scores are exact reals.

## Model

| member | source | states |
|---|---|---|
| Text.LowerAll | meal_planner.py:27 | the result has the input's length and lowers each ASCII capital, leaving every other character alone |
| Text.ReplaceAllWithoutMatch | meal_planner.py:22-23 | replacing a literal pattern that does not occur leaves the string unchanged |
| Text.ReplaceAllReplacesHead | meal_planner.py:22-23 | a string that starts with the pattern starts, after the replace, with the replacement |
| Text.ReplaceAllKeepsHead | meal_planner.py:22-23 | a first character that cannot start the pattern is copied and the rest is replaced on its own |
| Text.ReplaceAllAlphabet | meal_planner.py:22-23 | every character after a literal replace comes from the input or from the replacement text |
| Text.ReplaceAllConcat | meal_planner.py:53 | replacing a two-character pattern in a concatenation replaces each part, when no match straddles the seam |
| Text.ReplaceAllStripsPrefix | meal_planner.py:30 | removing the marker from `marker + rest` gives `rest` when `rest` holds no further marker |
| Text.CollapseNoRepeat | meal_planner.py:25 | after `_{2,}` → `_` no two consecutive underscores remain |
| Text.ReplaceRunsAlphabet | meal_planner.py:25 | every character after a run rewrite comes from the input or is the replacement |
| Text.ReplaceRunsWithoutMatch | meal_planner.py:25 | a string without two consecutive `c` is left unchanged by the `c{2,}` rewrite |
| Text.Strip | meal_planner.py:26 | the result is a slice of the input with only stripped characters cut from either end, and it neither starts nor ends with one |
| Text.StripUntouched | meal_planner.py:26 | a string containing no strippable character is unchanged |
| Text.JoinSplit | meal_planner.py:46 | joining the pieces of `split(sep)` with `sep` gives back the input, so the split loses nothing |
| Text.SplitPiecesHoldNoSeparator | meal_planner.py:46 | no piece of a split holds a separator |
| Text.SplitAlphabet | meal_planner.py:46 | every character of every piece comes from the input |
| Text.SplitAtSeparator | meal_planner.py:46 | splitting at a separator splits each side apart: the pieces of `p + [x] + t` are those of `p` followed by those of `t` |
| Text.LexIrreflexive | meal_planner.py:70 | Python's string order is irreflexive |
| Text.LexTransitive | meal_planner.py:70 | Python's string order is transitive |
| Text.LexTotal | meal_planner.py:70 | any two different strings are ordered one way or the other |
| Text.InsertSorted | meal_planner.py:64-70 | adding a token to a sorted vocabulary keeps it sorted without repeats, with exactly the old tokens plus the new one |
| Text.LexSortedDistinct | meal_planner.py:70 | a sorted vocabulary has no repeated token |
| Parse.IngredientPositions | meal_planner.py:30 | the positions are ascending and are exactly the columns whose header holds `"Ingredients: "` |
| Parse.KeptPositions | meal_planner.py:59 | the positions are ascending and are exactly the columns without the marker, the ones left after the drop |
| Parse.FilterOther | meal_planner.py:36 | keeps exactly the columns that are not `"Recipe Name"` and not a category |
| Parse.FilterOtherAppend | meal_planner.py:36 | the filter keeps header order and multiplicity: filtering a concatenation filters each part |
| Parse.CategoryOfMarkedHeader | meal_planner.py:30 | a header `"Ingredients: " + rest` is an ingredient column whose category is `rest` |
| Parse.OtherColumnsAreMetadata | meal_planner.py:30-36 | when renamed headers are unique, `other_columns` holds exactly the unmarked columns other than `"Recipe Name"` |
| Parse.KeepNameChars | meal_planner.py:24 | only letters, commas and underscores survive, each as often as it occurs in the input, and a string made of those is unchanged |
| Parse.KeepNameCharsAppend | meal_planner.py:24 | the deletion keeps the order: filtering a concatenation filters each part |
| Parse.Clean | meal_planner.py:20-27 | a cleaned cell holds only lower-case letters, commas and underscores, and never two underscores in a row |
| Parse.CleanKeepsCleanCell | meal_planner.py:20-27 | cleaning is the identity on a cell already in clean form: clean characters, no `__` and no `,_` |
| Parse.CleanKeepsLeadingSpaceAsUnderscore | meal_planner.py:22-26 | spaces become underscores before the strip, so a cell ` w` cleans to `_w` |
| Parse.CleanIsNotIdempotentAfterCommaAndTwoSpaces | meal_planner.py:22-25 | a cell `,  w` cleans to `,_w`, and cleaning that again gives the different `,w` |
| Parse.CleanIngredientColumns | meal_planner.py:40-41 | the loop over the ingredient columns leaves exactly those columns cleaned and every other cell as it was |
| Parse.ColumnCells | meal_planner.py:43-44 | the pairs are the column's non-empty cells, tagged with its category |
| Parse.CategoryCells | meal_planner.py:43-44 | the melted frame holds exactly the (category, cell) pairs of the non-empty ingredient cells |
| Parse.Layer | meal_planner.py:45-46 | one column of the split frame holds each cell's piece at that index, paired with its category |
| Parse.MaxPieces | meal_planner.py:46 | the split frame is as wide as the cell with the most pieces: no cell has more, some cell has that many, and no cells give width 0 |
| Parse.Stack | meal_planner.py:47 | the stacked columns hold exactly the (category, piece) pairs of the split frame from that column on |
| Parse.MeltPairs | meal_planner.py:45-47 | the second melt yields exactly the (category, piece) pairs of every cell |
| Parse.MeltIsPieceMajor | meal_planner.py:45-48 | the melt is piece-major: the cells (A, `yy,xx`), (B, `xx`) melt to (A, yy), (B, xx), (A, xx), so `xx` maps to A although B is the later column |
| Parse.Dedup | meal_planner.py:48 | the same pairs remain, each once |
| Parse.DedupKeepsFirstOrder | meal_planner.py:48 | of two pairs first seen at positions i < j, the one seen at i comes first after the drop |
| Parse.OverwriteKeys | meal_planner.py:48 | `to_dict` has a key for exactly the observed tokens, each sent to a category it was paired with |
| Parse.TypeMap | meal_planner.py:43-48 | the type map's keys are exactly the observed tokens, and each maps to a category it appeared under |
| Parse.TypeMapLastNewPairWins | meal_planner.py:48 | a token maps to the category of its last pair that is not a repeat of an earlier pair |
| Parse.TypeMapIgnoresRepeatedPair | meal_planner.py:48 | in the melted order (A, x), (B, x), (A, x) the token `x` maps to B, not to the last-seen A |
| Parse.IngredientsText | meal_planner.py:51-57 | the row's `Ingredients` string neither starts nor ends with a comma, and for space-free cells it has the tokens of the joined cells once every `,_` became `,` |
| Parse.Tidy | meal_planner.py:54-57 | the run collapses and the strips leave no comma at either end and, on a text without white space, keep its tokens |
| Parse.JoinEmptyCells | meal_planner.py:51 | joining k empty cells gives k commas |
| Parse.EmptyCellsGiveEmptyText | meal_planner.py:39-57 | a row whose ingredient cells are all missing or empty gets an empty `Ingredients` string |
| Parse.EmptyCellAddsNoToken | meal_planner.py:51-57 | an empty cell in any column but the first leaves the row's tokens as they were |
| Parse.OneCellIsOneToken | meal_planner.py:51-57 | a row whose one cell is a comma-free clean word of two or more characters has that word as its only token |
| Parse.FirstCellKeepsUnderscore | meal_planner.py:51-57 | the cell `_ab` in the first column gives the token `_ab` |
| Parse.LeadingEmptyCellDropsFirstUnderscore | meal_planner.py:51-57 | after an empty first cell, a cell `_v` gives the token `v`: the joined `,_` loses its underscore |
| Parse.LeadingEmptyCellDropsUnderscore | meal_planner.py:51-57 | the cells `""`, `_ab` give the token `ab` and not `_ab` |
| Parse.LongPiecesKept | meal_planner.py:64 | keeps exactly the pieces at least two characters long |
| Parse.AddTokens | meal_planner.py:64 | adding a document's tokens keeps the vocabulary sorted and adds exactly those tokens |
| Parse.Vocabulary | meal_planner.py:64-70 | the vocabulary is strictly sorted in Python's string order |
| Parse.VocabularyComplete | meal_planner.py:64-70 | a token is in the vocabulary exactly when it occurs in some row's `Ingredients` string |
| Parse.CountMatrix | meal_planner.py:64-69 | one row per document and one column per vocabulary token, each cell the number of times the token occurs among the document's tokens |
| Parse.ParseSpec | meal_planner.py:40-64 | each error exactly under its condition: repeated category names; no ingredient column; a category named `Ingredients`, which the drop removes together with the joined column; no token in any row |
| Parse.IngredientsCategoryExample | meal_planner.py:51-64 | the header `Recipe Name`, `Ingredients: Ingredients` ends in the `IngredientsCategory` error |
| Parse.ParseSucceeds | meal_planner.py:64-72 | a successful parse keeps every row (its columns and cells are `Parse.ParseKeepsColumns`), its vocabulary is the sorted set of tokens of the rows, and each count is the number of occurrences of the column's token in the row |
| Parse.ParseKeepsColumns | meal_planner.py:39-59 | a successful parse keeps the unmarked columns in header order, each cell as read with a missing cell empty, and puts each row's `Ingredients` string in the `Ingredients` column, overwriting an unmarked column of that name or appending one |
| Parse.ParseData | meal_planner.py:18-74 | the method returns exactly `ParseSpec`: the parsed table, type map and other columns, or the error the code raises |
| Plan.Seeds | meal_planner.py:99 | the seeds are ascending and are exactly the ticked rows |
| Plan.SavedIds | meal_planner.py:92-93 | the saved plan's ids are ascending and are exactly the rows whose name is in the saved list; unknown names are dropped |
| Plan.PlanNames | meal_planner.py:145-146 | the current plan holds exactly the names of the plan's rows |
| Plan.SavedPlanRoundTrip | meal_planner.py:92-93 | with unique recipe names, loading the names of an ascending plan as a saved plan gives the same ids back |
| Plan.RowSumZero | meal_planner.py:126 | a recipe's union weight is zero exactly when it has no ingredient |
| Plan.SupportIsSharedIngredient | meal_planner.py:115-116 | an ingredient is in the plan's support exactly when some planned recipe uses it |
| Plan.Overlap | meal_planner.py:122-126 | a candidate's intersection weight never exceeds its union weight |
| Plan.OverlapExtremes | meal_planner.py:122-126 | the intersection weight is the union weight when every ingredient of the candidate is in the support, and zero when none is |
| Plan.Ratio | meal_planner.py:134 | the unperturbed score lies between 0 and 1 |
| Plan.Score | meal_planner.py:120-134 | a row has no score exactly when it is in the plan or has no ingredient; a score lies between 0 and the row's draw |
| Plan.FirstMax | meal_planner.py:135-136 | a chosen row is a row with a score |
| Plan.FirstMaxIsFirstMaximum | meal_planner.py:135-136 | nothing is chosen exactly when no row has a score; otherwise no row scores higher and every earlier row scores strictly lower |
| Plan.FirstOutside | meal_planner.py:135-136 | the row found is a row of the table that is not in the plan |
| Plan.FirstOutsideIsFirst | meal_planner.py:135-136 | every row before the one found is in the plan |
| Plan.CandidateLeft | meal_planner.py:120 | a plan of distinct rows smaller than the table leaves a row out |
| Plan.Pick | meal_planner.py:120-136 | the added recipe is a row of the table that is not yet in the plan |
| Plan.PickEmptyOnlyWhenAllEmpty | meal_planner.py:126-136 | a recipe without ingredients is added only when every candidate is one |
| Plan.PickWhenOnlyEmptyRowsLeft | meal_planner.py:134-136 | once only recipes without ingredients are left, every score is NaN and the first candidate in table order is added |
| Plan.PickMaximisesScore | meal_planner.py:134-136 | while a candidate has ingredients, the added recipe has ingredients, scores at least as much as every such candidate and more than every earlier one |
| Plan.DrawFactor | meal_planner.py:128-134 | with draws in [0.5, 1.5), a weighted win means the unperturbed ratios differ at most by the factor 3 |
| Plan.PickWithinRandomisationFactor | meal_planner.py:128-136 | the added recipe has ingredients and its unperturbed score is at least a third of any other candidate's |
| Plan.EqualDrawsPickBestOverlap | meal_planner.py:113-136 | on a three-recipe table with equal draws, the candidate with overlap 1/2 beats the one with 1/3 |
| Plan.Grown | meal_planner.py:113-142 | after k steps the plan has k more recipes, starts with the seeds, and stays free of repeats inside the table |
| Plan.ExtendPlan | meal_planner.py:108-142 | the growth loop's plan is `Grown` after one step per missing recipe |
| Plan.InsertPermutes | meal_planner.py:140 | insertion adds exactly the one element |
| Plan.InsertIntoAscending | meal_planner.py:140 | insertion keeps a sequence ascending |
| Plan.SortAsc | meal_planner.py:140 | `sorted` yields an ascending permutation of its input |
| Plan.SortAscKeepsAscending | meal_planner.py:140 | sorting a plan already in ascending order leaves it as it is |
| Plan.SortDistinct | meal_planner.py:140 | sorting ids without repeats gives a strictly ascending sequence |
| Plan.SortedPlan | meal_planner.py:138-140 | the sorted plan keeps its size and its seeds, stays inside the table and is strictly ascending |
| Plan.GrowPlan | meal_planner.py:108-142 | the result is the sorted `Grown` plan: exactly the target size, strictly ascending, inside the table, containing every seed |
| Plan.ThreeRecipeExamplePlan | meal_planner.py:108-142 | in the three-recipe table, seed A with equal draws grows to the plan [A, B] |
| Plan.BareSeedFirstPick | meal_planner.py:120-136 | from a seed without ingredients, where every candidate scores zero, the first candidate in table order is added |
| Plan.BareSeedExamplePlan | meal_planner.py:108-142 | the counts [[0], [1], [1]] with seed 0 and target 3 give the plan [0, 1, 2] |
| Plan.MealPlanPaths | meal_planner.py:92-142 | a saved plan gives its ids; no seed gives no plan; seeds that fill the plan are the plan as they are; a table with fewer rows than the target ends in the IndexError; otherwise the plan has exactly the target size, is strictly ascending, inside the table and holds every seed |
| Plan.Session.constructor | meal_planner.py:15 | the session starts with an empty current meal plan |
| Plan.Session.GetMealPlan | meal_planner.py:77-146 | returns `MealPlan`; a plan becomes the current plan by its recipe names, and the early return and the IndexError leave the current plan as it was |

## Left out

- Charts and display (meal_planner.py:147-175) are not modelled. Neither are the widgets, the file upload and CSV decoding (meal_planner.py:178-360). A raw table arrives as a header plus rows of cells that are either missing or text.
- Parse.Tokens: the count vectorizer belongs to a foreign library. It is replaced by a stated tokenizer that splits at commas and spaces and keeps pieces of at least two characters. On the cleaned alphabet (lower-case letters, `_`, `,`, space) this is what the default token pattern matches. The vectorizer's own lower-casing and Unicode handling are not modelled.
- `str.replace` is modelled with pandas' former default, where the pattern is a regular expression. So `[^a-zA-Z,_]`, `_{2,}`, ` {2,}` and `,{2,}` are patterns, and `" "` and `",_"` match themselves.
- The random draws (`np.random.uniform`) are a parameter, and floating-point division is exact real division. The source draws one value per remaining candidate in row order. The model indexes the draws by row id, which only relabels them; the plan members' draws go unused.
- Plan.Session.GetMealPlan requires one draw per row for every growth step, since the draws are its parameter. It requires nothing of the table: a table with fewer rows than the target ends in `NoCandidateLeft`, the IndexError of the source.
- Plan.FirstMax: the descending sort does not specify an order among equal scores. The model takes the first maximal row.
- Plan.Score: a recipe without ingredients has the ratio 0/0, which is NaN. The model gives it no score, and a NaN sorts last. So such a recipe is never added while a recipe with ingredients is still a candidate. Once only such recipes are left, the sort keeps them in table order and the first is added.
- The source filters candidates with `iloc[:, 3:]` (meal_planner.py:120), a fixed column offset. The header offset `num_columns` (meal_planner.py:97) is computed but not used for this. The two agree only when there is exactly one other column. The model works on the count vectors directly.
- Plan.Seeds: the seeds are the ticked recipes in table order, which assumes the keyword arguments arrive in widget order and the widgets follow the table. Recipe names are assumed unique by `Plan.SavedPlanRoundTrip`. The source's name → id dictionary keeps the last row of a repeated name, and that case is not modelled.
- Numeric cells are not modelled: every raw cell is text or missing. The type map's entries for the NaN padding of the split frame are not modelled either; the model never creates such pairs.
- A table without an ingredient column: melting the column-less selection gives an empty value column of floats, and `.str` refuses it (meal_planner.py:44-46), before the join is reached. The model returns `NoIngredientColumns` rather than an empty vocabulary.
- An empty vocabulary: the count vectorizer refuses a corpus without a token. The model returns `EmptyVocabulary` rather than an empty table.
- Duplicate columns: a renamed header that repeats another header (two ingredient columns with one category, or a category such as `Veg` beside an unmarked column `Veg`) makes `data[col]` a two-column frame, and `.str` fails in the cleaning loop (meal_planner.py:40-41). The model returns `DuplicateColumn`.
- A category named `Ingredients`: the joined string overwrites that column, the drop of the ingredient columns then removes it, and reading `data["Ingredients"]` fails. The model returns `IngredientsCategory`.
- The type map is not "last category seen wins": the code drops duplicate pairs before the overwrite, so the category of the last pair that is not a repeat wins. "Last" is in the melted order, which takes the first piece of every cell before the second (`Parse.MeltIsPieceMajor`), not the last category column. `Parse.TypeMapLastNewPairWins` states this and `Parse.TypeMapIgnoresRepeatedPair` shows a case where the two differ.
