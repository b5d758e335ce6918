# Recipe catalog service: a Dafny model

The service keeps a cookbook of named entries. An entry is either an
ingredient with a cook time or a recipe listing `(name, quantity)` items.
Clients register entries with `POST /entry`. They ask `GET /summary?name=…`
for a recipe's total cook time and its ingredients, with every sub-recipe
expanded. `POST /parse` normalises a handwritten recipe name. The
service exists twice: a complete TypeScript server and a Python server
whose summary endpoint is a stub.

Modules, one `.dfy` file each:

- `Catalog` (`catalog.dfy`): entries (`Ingredient(cookTime)`, `Recipe(requiredItems)`),
  required items, and the cookbook as `map<string, Entry>`.
- `Expansion` (`expansion.dfy`): `calculateRecipeSummary` as pure functions.
  `Absorb` is one iteration of the loop over `requiredItems`. `Expand` is the
  whole loop. `Summarize` is the call on a recipe name.
  Beside them sits a reference that defines the answer on its own terms:
  - `Resolves`: every transitively required name exists;
  - `TimeOf`: the sum of quantity times time over the items;
  - `AmountOf`: for each ingredient, the sum over all paths to it of the
    product of the quantities along the path.
  - `Reaches`: some path of present names ends at the ingredient, which
    is then listed even if its quantities sum to 0.

  The lemmas connect the engine to this reference.
- `TsServer` (`ts_server.dfy`): the TypeScript server.
  - `CalculateRecipeSummary` is a method. Its loop updates `totalCookTime`
    and `ingredientMap` in place, and it calls itself on sub-recipes.
    Its contract proves it equal to `Summarize`.
  - `Respond` is the `/summary` handler's answer.
  - The class `Cookbook` holds the global cookbook, with `AddEntry` (`/entry`)
    and `Summary` (`/summary`).
- `PyServer` (`py_server.dfy`): the Python server's global `cookbook` and
  `create_entry`. It stores the request body itself.
- `Registration` (`registration.dfy`): the request body and the validation
  rules of both `/entry` handlers, as one function `Check` with a
  `Dialect`. In this typed model the two handlers differ only in how they
  test that a string field is given. TypeScript tests truthiness, so `""`
  counts as missing. Python tests presence, so `""` is accepted. The source
  handlers also differ on the type tests for `quantity` and `cookTime`,
  which "## Left out" lists.
- `Handwriting` (`handwriting.dfy`): `parse_handwriting` in both languages.
  The regular expressions become ASCII character predicates. TypeScript's
  `trim().split(" ")` keeps empty words, so an inner double space survives.
  Python's `split()` collapses runs of spaces. A position-wise title case
  (`Titled`) is the reference for the TypeScript result.

**Termination.** The source recurses into sub-recipes with no cycle guard.
A cyclic cookbook overflows the JavaScript call stack, and the `/summary`
handler's `try`/`catch` turns the resulting `RangeError` into a 400 answer.
The model adds a `depth` parameter: the number of nested sub-recipe
expansions still allowed. A sub-recipe met at depth 0 fails with `TooDeep`,
which stands for that overflow. `DeeperAgrees` and `DepthIrrelevantOnceDone`
show that any larger depth gives the same answer once an expansion has
not run out. `SelfReferenceNeverResolves` shows that a recipe listing itself
never yields a summary at any depth. The code has no cycle guard, and the
model follows it. The code leaves the ingredient-root check to `/summary`,
so `Summarize` requires a recipe, as both its callers ensure.

## Model

| member | source | states |
|---|---|---|
| `Expansion.ExpandMeaning` | backend/ts_template/devdonalds.ts:108-134 | expansion succeeds iff every transitively required name exists (within the depth); then cook time is the sum of quantity × time, the result lists exactly the ingredients some path reaches (one whose quantities sum to 0 included), and each one's quantity is the sum over all paths of the product of quantities; a dangling reference anywhere fails the whole expansion |
| `Expansion.DirectIngredient` | backend/ts_template/devdonalds.ts:119-122 | an ingredient item adds `cookTime * quantity` to the total and `quantity` to that ingredient's line, adds that name to the list, and leaves every other line unchanged |
| `Expansion.SubRecipeScaled` | backend/ts_template/devdonalds.ts:123-128 | a sub-recipe item adds its cook time and every ingredient quantity multiplied by the outer quantity, and adds exactly the sub-recipe's ingredient names to the list |
| `Expansion.TwoPaths` | backend/ts_template/devdonalds.ts:122-127 | an ingredient reached directly (1) and through a sub-recipe (2 × 3) gets 7, the sum, not the last write |
| `Expansion.TwoLevels` | backend/ts_template/devdonalds.ts:124-128 | 2 × R2 where R2 = 3 × X (cook time 5) gives cook time 30 and 6 X: quantities multiply across levels |
| `Expansion.EmptyRecipe` | backend/ts_template/devdonalds.ts:110-133 | a recipe with no required items yields cook time 0 and no ingredients |
| `Expansion.ExpandYieldsIngredients` | backend/ts_template/devdonalds.ts:119-132 | every name in a successful result is bound to an Ingredient in the cookbook |
| `Expansion.MissingIsAbsent` | backend/ts_template/devdonalds.ts:114-117 | a `Missing ingredient` failure names an entry that is absent from the cookbook |
| `Expansion.DeeperAgrees` | backend/ts_template/devdonalds.ts:124 | one more level of allowed nesting changes no result other than running out of depth |
| `Expansion.DepthIrrelevantOnceDone` | backend/ts_template/devdonalds.ts:124 | any larger depth gives the same result once a result did not run out of depth |
| `Expansion.SelfReferenceNeverResolves` | backend/ts_template/devdonalds.ts:123-124 | with no cycle guard, a recipe that lists itself fails at every depth |
| `TsServer.FailureIsFinal` | backend/ts_template/devdonalds.ts:114-117 | once an item fails, later items do not matter: the failure is the result and no partial result is returned |
| `TsServer.CalculateRecipeSummary` | backend/ts_template/devdonalds.ts:108-134 | the in-place loop over `requiredItems`, with its recursion, returns exactly `Summarize` |
| `TsServer.MergeScaled` | backend/ts_template/devdonalds.ts:126-128 | the loop over a sub-recipe's ingredients produces `AddScaled` of the running map |
| `TsServer.Respond` | backend/ts_template/devdonalds.ts:138-156 | "Recipe not found" iff the name is empty or absent; "not a recipe" iff it names an ingredient; success iff it names a recipe whose expansion resolves, with the path-sum cook time and quantities, listing exactly the ingredients some path reaches, all of them cookbook ingredients |
| `TsServer.Cookbook.Summary` | backend/ts_template/devdonalds.ts:140-154 | the handler checks the root before expanding and answers `Respond` |
| `TsServer.Cookbook.AddEntry` | backend/ts_template/devdonalds.ts:64-106 | status is `Stored` iff `Check` passes; a rejection leaves the cookbook unchanged; acceptance adds exactly the new key `name` bound to the stored entry |
| `TsServer.Cookbook.constructor` | backend/ts_template/devdonalds.ts:29 | the cookbook starts empty |
| `TsServer.StoredEntry` | backend/ts_template/devdonalds.ts:95-101 | a recipe is stored with its items' names and quantities, an ingredient with its cook time |
| `PyServer.Cookbook.CreateEntry` | backend/py_template/devdonalds.py:65-105 | status is `Stored` iff `Check` passes; a rejection leaves `cookbook` unchanged; acceptance adds exactly the key `name` bound to the request body |
| `PyServer.Cookbook.constructor` | backend/py_template/devdonalds.py:36 | the cookbook starts empty |
| `Registration.CheckAcceptsExactly` | backend/ts_template/devdonalds.ts:67-104 | an entry is stored iff name and type are given, the type is `recipe` or `ingredient`, the name is new, a recipe's items are a list of complete items with distinct names, and an ingredient's cook time is at least 0 |
| `Registration.CheckItemsPasses` | backend/py_template/devdonalds.py:86-95 | the `seen_items` loop passes iff every item has `name` and `quantity` and no two share a name; otherwise it reports a missing field or a duplicate |
| `Registration.TakenNameRefused` | backend/py_template/devdonalds.py:78-79 | a valid request whose name is already in `cookbook` is refused as not unique |
| `Registration.DialectsAgreeWithoutEmptyStrings` | backend/py_template/devdonalds.py:69-70 | the two handlers give the same verdict on every request with no empty string field |
| `Registration.EmptyNameSplitsDialects` | backend/ts_template/devdonalds.ts:67-69 | an empty `name` is refused by the TypeScript handler and accepted by the Python one |
| `Handwriting.CleanFacts` | backend/py_template/devdonalds.py:51-53 | cleaning leaves only ASCII letters and spaces, keeps a letter iff the input has one, and is the identity on letters and spaces |
| `Handwriting.CleanDeletesOther` | backend/ts_template/devdonalds.ts:50 | for every input, a character other than a letter, a space, `-` or `_` is deleted without leaving a gap: `u + c + v` cleans to the cleaned `u` followed directly by the cleaned `v` |
| `Handwriting.CleanDashRun` | backend/ts_template/devdonalds.ts:49 | for every input, a maximal run of `-`/`_` between any two texts becomes exactly one space between their cleaned forms |
| `Handwriting.TrimFacts` | backend/ts_template/devdonalds.ts:51 | `trim()` removes the spaces at either end and nothing else: the result is a slice `s[i..j]` with only spaces before `i` and after `j`, so inner runs of spaces are kept; it has no space at either end and is empty iff the input is all spaces |
| `Handwriting.SplitJoinIsTitled` | backend/ts_template/devdonalds.ts:55-58 | `split(" ")`, capitalising each word and `join(" ")` give the position-wise title case, spaces kept in place |
| `Handwriting.ParseTsMeaning` | backend/ts_template/devdonalds.ts:47-59 | `null` iff the input holds no ASCII letter; otherwise the title case of the cleaned, trimmed name |
| `Handwriting.ParseTsShape` | backend/ts_template/devdonalds.ts:48-58 | the result holds only ASCII letters and spaces and has no space at either end |
| `Handwriting.ParseTsIdempotent` | backend/ts_template/devdonalds.ts:47-59 | normalising a normalised name gives it back |
| `Handwriting.DoubleSpaceTs` | backend/ts_template/devdonalds.ts:55-58 | `"a  b"` gives `"A  B"`: the empty word keeps the double space |
| `Handwriting.CleanWords` | backend/py_template/devdonalds.py:53-58 | the words of a cleaned name are non-empty runs of letters, and there are none iff the input holds no letter |
| `Handwriting.ParsePyMeaning` | backend/py_template/devdonalds.py:50-60 | the Python result exists iff the TypeScript one does, and is the TypeScript result with each run of spaces collapsed: its words rejoined with single spaces |
| `Handwriting.ParsePyShape` | backend/py_template/devdonalds.py:55-60 | `None` iff no letter; otherwise letters and single inner spaces, none at either end, each word one capital followed by small letters |
| `Handwriting.ParsePyIdempotent` | backend/py_template/devdonalds.py:50-60 | normalising a normalised name gives it back |
| `Handwriting.SplitJoin` | backend/py_template/devdonalds.py:55-60 | splitting undoes joining space-free words with single spaces |
| `Handwriting.CapitalizeShape` | backend/py_template/devdonalds.py:60 | `capitalize()` of a word of letters gives one capital then small letters, and is idempotent |
| `Handwriting.JoinSpacing` | backend/py_template/devdonalds.py:60 | joining non-empty space-free words gives no space at either end and no two in a row |
| `Handwriting.OtherCharacterDeleted` | backend/py_template/devdonalds.py:53 | `"a1b"` gives `"Ab"`: a digit is deleted without separating words |
| `Handwriting.DashRunSeparates` | backend/py_template/devdonalds.py:51 | `"a-_b"` gives `"A B"`: a run of dashes and underscores becomes one separator |
| `Handwriting.DoubleSpacePy` | backend/py_template/devdonalds.py:55 | `"a  b"` gives `"A B"`: `split()` collapses the double space |

## Left out

- HTTP plumbing is not modelled: app setup, `listen`/`run`, the `/` and `/parse` routes, `req.body`/`get_json` parsing and JSON responses. Each handler is modelled as its outcome: a status and error kind, or the summary.
- The Python `summary` handler is a stub that answers 500, so it has no behaviour to model.
- The request body is typed. `name` and `type` are optional strings, items are optional `name`/`quantity` pairs, and `cookTime` is an optional integer. Dynamic-typing cases are treated as a missing field:
  - a non-string `name` or `type`;
  - a non-integer `quantity` or `cookTime`;
  - a `requiredItems` element that is not an object.

  The sources differ in these cases. TypeScript stores a non-string name under its string form, and Python under the value itself. Python's `isinstance(…, int)` accepts `True`. Python accepts an item `quantity` of any type. A `null` item makes TypeScript throw.
- JavaScript `number` and floats are not modelled: `quantity` and `cookTime` are unbounded integers.
- Object prototype keys are not modelled. In TypeScript, `cookbook[name]` on the plain object `{}` is truthy for inherited names such as `toString`, so such a name is refused as "not unique". The model's cookbook is a plain map.
- The order of the ingredient list (`Object.entries`) is not modelled. The result is a map from name to quantity, so each name appears once.
- Stack depth stands in for the JavaScript call stack. The model does not reproduce the actual stack limit or the text of the `RangeError` message.
- Concurrency over the shared global cookbook is not modelled: every operation runs alone.
- Unicode is not modelled. The filter keeps only ASCII letters, so case mapping is ASCII.
- Extra fields of a stored body are not modelled. TypeScript keeps each required item object as sent; the model keeps only its `name` and `quantity`.
