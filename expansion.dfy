/** The recipe expansion engine (`calculateRecipeSummary`) as pure functions,
    with an independent path-sum reference and the lemmas connecting them.

    The source recurses into sub-recipes with no cycle guard; a cyclic
    cookbook exhausts the JavaScript call stack, whose RangeError the
    `/summary` handler catches like any other error. Here `depth` is the
    number of nested sub-recipe expansions still allowed: a recipe item met
    with `depth == 0` fails with `TooDeep`, standing for that stack overflow. */
module Expansion {
  import opened Catalog

  /** `{ cookTime, ingredients }`: the ingredient list as a name-to-quantity map. */
  datatype Summary = Summary(cookTime: int, ingredients: map<string, int>)

  /** `Missing ingredient: <name>`, or the call stack running out. */
  datatype Failure = MissingIngredient(name: string) | TooDeep

  datatype Outcome = Done(summary: Summary) | Failed(failure: Failure)

  /** Adds `q` times every quantity of `m` into `acc`, summing on shared names. */
  function AddScaled(acc: map<string, int>, m: map<string, int>, q: int): (r: map<string, int>)
    ensures r.Keys == acc.Keys + m.Keys
    ensures forall k :: Get(r, k) == Get(acc, k) + q * Get(m, k)
  {
    map k | k in acc.Keys + m.Keys :: Get(acc, k) + q * Get(m, k)
  }

  /** One iteration of the loop over `requiredItems`: fold `item` into the
      running total `acc`. */
  function Absorb(book: Book, acc: Summary, item: RequiredItem, depth: nat): Outcome
    decreases depth, 0, 0
  {
    if item.name !in book then Failed(MissingIngredient(item.name))
    else match book[item.name]
      case Ingredient(t) =>
        Done(Summary(acc.cookTime + t * item.quantity,
                     acc.ingredients[item.name := Get(acc.ingredients, item.name) + item.quantity]))
      case Recipe(sub) =>
        if depth == 0 then Failed(TooDeep)
        else match Expand(book, sub, depth - 1)
          case Failed(f) => Failed(f)
          case Done(s) =>
            Done(Summary(acc.cookTime + s.cookTime * item.quantity,
                         AddScaled(acc.ingredients, s.ingredients, item.quantity)))
  }

  /** The loop over `items` from an empty accumulator, stopping at the first
      failure. */
  function Expand(book: Book, items: seq<RequiredItem>, depth: nat): Outcome
    decreases depth, 1, |items|
  {
    if items == [] then Done(Summary(0, map[]))
    else match Expand(book, items[..|items| - 1], depth)
      case Failed(f) => Failed(f)
      case Done(acc) => Absorb(book, acc, items[|items| - 1], depth)
  }

  /** `calculateRecipeSummary(name)`; both callers ensure `name` is a recipe. */
  function Summarize(book: Book, name: string, depth: nat): Outcome
    requires name in book && book[name].Recipe?
  {
    Expand(book, book[name].requiredItems, depth)
  }

  // ---------------------------------------------------------------------------
  // Reference definitions: what an expansion should mean.

  /** Every name reachable from `items` exists, within `depth` nested recipes. */
  predicate Resolves(book: Book, items: seq<RequiredItem>, depth: nat)
    decreases depth, 1, |items|
  {
    forall i :: 0 <= i < |items| ==> ItemResolves(book, items[i], depth)
  }

  predicate ItemResolves(book: Book, item: RequiredItem, depth: nat)
    decreases depth, 0, 0
  {
    && item.name in book
    && (book[item.name].Recipe? ==>
          depth > 0 && Resolves(book, book[item.name].requiredItems, depth - 1))
  }

  /** Total cook time: the sum over the items of quantity times the item's own time. */
  function TimeOf(book: Book, items: seq<RequiredItem>, depth: nat): int
    decreases depth, 1, |items|
  {
    if items == [] then 0 else ItemTime(book, items[0], depth) + TimeOf(book, items[1..], depth)
  }

  function ItemTime(book: Book, item: RequiredItem, depth: nat): int
    decreases depth, 0, 0
  {
    if item.name !in book then 0
    else match book[item.name]
      case Ingredient(t) => item.quantity * t
      case Recipe(sub) => if depth == 0 then 0 else item.quantity * TimeOf(book, sub, depth - 1)
  }

  /** Quantity of ingredient `x`: the sum over all paths to `x` of the product
      of the quantities along the path. */
  function AmountOf(book: Book, items: seq<RequiredItem>, x: string, depth: nat): int
    decreases depth, 1, |items|
  {
    if items == [] then 0 else ItemAmount(book, items[0], x, depth) + AmountOf(book, items[1..], x, depth)
  }

  function ItemAmount(book: Book, item: RequiredItem, x: string, depth: nat): int
    decreases depth, 0, 0
  {
    if item.name !in book then 0
    else match book[item.name]
      case Ingredient(_) => if item.name == x then item.quantity else 0
      case Recipe(sub) => if depth == 0 then 0 else item.quantity * AmountOf(book, sub, x, depth - 1)
  }

  /** Ingredient `x` lies at the end of some path of required items, every
      name along it present, within `depth` nested recipes. */
  predicate Reaches(book: Book, items: seq<RequiredItem>, x: string, depth: nat)
    decreases depth, 1, |items|
  {
    exists i :: 0 <= i < |items| && ItemReaches(book, items[i], x, depth)
  }

  predicate ItemReaches(book: Book, item: RequiredItem, x: string, depth: nat)
    decreases depth, 0, 0
  {
    && item.name in book
    && match book[item.name]
       case Ingredient(_) => item.name == x
       case Recipe(sub) => depth > 0 && Reaches(book, sub, x, depth - 1)
  }

  // ---------------------------------------------------------------------------
  // Lemmas

  /** The reference sums can be split off at the last item, the order in
      which the loop accumulates. */
  lemma {:induction false} TimeOfSnoc(book: Book, items: seq<RequiredItem>, depth: nat)
    requires items != []
    ensures TimeOf(book, items, depth)
            == TimeOf(book, items[..|items| - 1], depth) + ItemTime(book, items[|items| - 1], depth)
    decreases |items|
  {
    if |items| > 1 {
      var tail := items[1..];
      TimeOfSnoc(book, tail, depth);
      assert tail[..|tail| - 1] == items[..|items| - 1][1..];
      assert items[..|items| - 1][0] == items[0];
    }
  }

  lemma {:induction false} AmountOfSnoc(book: Book, items: seq<RequiredItem>, x: string, depth: nat)
    requires items != []
    ensures AmountOf(book, items, x, depth)
            == AmountOf(book, items[..|items| - 1], x, depth) + ItemAmount(book, items[|items| - 1], x, depth)
    decreases |items|
  {
    if |items| > 1 {
      var tail := items[1..];
      AmountOfSnoc(book, tail, x, depth);
      assert tail[..|tail| - 1] == items[..|items| - 1][1..];
      assert items[..|items| - 1][0] == items[0];
    }
  }

  /** The expansion succeeds exactly when every transitively required name
      resolves; it then reports as cook time the sum of quantity times time
      and, for every ingredient, the sum of its path contributions. */
  lemma {:induction false} ExpandSums(book: Book, items: seq<RequiredItem>, depth: nat)
    ensures Expand(book, items, depth).Done? <==> Resolves(book, items, depth)
    ensures Expand(book, items, depth).Done? ==>
              && Expand(book, items, depth).summary.cookTime == TimeOf(book, items, depth)
              && forall x :: Get(Expand(book, items, depth).summary.ingredients, x)
                             == AmountOf(book, items, x, depth)
    decreases depth, |items|
  {
    if items != [] {
      var n := |items| - 1;
      var prefix, last := items[..n], items[n];
      ExpandSums(book, prefix, depth);
      ResolvesSnoc(book, items, depth);
      TimeOfSnoc(book, items, depth);
      forall x ensures AmountOf(book, items, x, depth) == AmountOf(book, prefix, x, depth) + ItemAmount(book, last, x, depth) {
        AmountOfSnoc(book, items, x, depth);
      }
      if last.name in book && book[last.name].Recipe? && depth > 0 {
        ExpandSums(book, book[last.name].requiredItems, depth - 1);
      }
    }
  }

  /** Every name resolves exactly when every name of all but the last item
      resolves and the last item's names do. */
  lemma ResolvesSnoc(book: Book, items: seq<RequiredItem>, depth: nat)
    requires items != []
    ensures Resolves(book, items, depth)
            <==> Resolves(book, items[..|items| - 1], depth) && ItemResolves(book, items[|items| - 1], depth)
  {
    var n := |items| - 1;
    var prefix := items[..n];
    if Resolves(book, prefix, depth) && ItemResolves(book, items[n], depth) {
      forall i | 0 <= i < |items| ensures ItemResolves(book, items[i], depth) {
        if i < n { assert items[i] == prefix[i]; }
      }
    }
    if Resolves(book, items, depth) {
      forall i | 0 <= i < n ensures ItemResolves(book, prefix[i], depth) {
        assert items[i] == prefix[i];
      }
    }
  }

  /** A path reaches `x` from `items` exactly when one reaches it from all
      but the last item or from the last item itself. */
  lemma ReachesSnoc(book: Book, items: seq<RequiredItem>, x: string, depth: nat)
    requires items != []
    ensures Reaches(book, items, x, depth)
            <==> Reaches(book, items[..|items| - 1], x, depth) || ItemReaches(book, items[|items| - 1], x, depth)
  {
  }

  /** A successful result lists exactly the ingredients some path reaches,
      including one whose quantities add up to 0. */
  lemma {:induction false} ExpandListsReached(book: Book, items: seq<RequiredItem>, depth: nat)
    ensures Expand(book, items, depth).Done? ==>
              forall x :: x in Expand(book, items, depth).summary.ingredients <==> Reaches(book, items, x, depth)
    decreases depth, |items|
  {
    if items != [] && Expand(book, items, depth).Done? {
      var n := |items| - 1;
      var prefix, last := items[..n], items[n];
      ExpandListsReached(book, prefix, depth);
      assert Expand(book, prefix, depth).Done?;
      var acc := Expand(book, prefix, depth).summary;
      assert Absorb(book, acc, last, depth) == Expand(book, items, depth);
      var keys := Expand(book, items, depth).summary.ingredients.Keys;
      // The keys the last item adds are exactly the names it reaches.
      var added: set<string>;
      if book[last.name].Ingredient? {
        added := {last.name};
      } else {
        var sub := book[last.name].requiredItems;
        ExpandListsReached(book, sub, depth - 1);
        added := Expand(book, sub, depth - 1).summary.ingredients.Keys;
      }
      assert keys == acc.ingredients.Keys + added;
      forall x ensures x in keys <==> Reaches(book, items, x, depth) {
        ReachesSnoc(book, items, x, depth);
        assert x in added <==> ItemReaches(book, last, x, depth);
      }
    }
  }


  /** The meaning of an expansion: it succeeds exactly when every
      transitively required name resolves, so a dangling reference anywhere
      makes the whole expansion fail. It then reports as cook time the sum of
      quantity times time, lists exactly the ingredients some path reaches,
      and gives each the sum over its paths of the product of quantities. */
  lemma ExpandMeaning(book: Book, items: seq<RequiredItem>, depth: nat)
    ensures Expand(book, items, depth).Done? <==> Resolves(book, items, depth)
    ensures Expand(book, items, depth).Done? ==>
              && Expand(book, items, depth).summary.cookTime == TimeOf(book, items, depth)
              && (forall x :: Get(Expand(book, items, depth).summary.ingredients, x)
                              == AmountOf(book, items, x, depth))
              && (forall x :: x in Expand(book, items, depth).summary.ingredients
                              <==> Reaches(book, items, x, depth))
  {
    ExpandSums(book, items, depth);
    ExpandListsReached(book, items, depth);
  }

  /** Every name in a successful result is an ingredient of the cookbook. */
  lemma {:induction false} ExpandYieldsIngredients(book: Book, items: seq<RequiredItem>, depth: nat)
    ensures Expand(book, items, depth).Done? ==>
              forall k :: k in Expand(book, items, depth).summary.ingredients ==>
                            k in book && book[k].Ingredient?
    decreases depth, |items|
  {
    if items != [] {
      var n := |items| - 1;
      var last := items[n];
      ExpandYieldsIngredients(book, items[..n], depth);
      if last.name in book && book[last.name].Recipe? && depth > 0 {
        ExpandYieldsIngredients(book, book[last.name].requiredItems, depth - 1);
      }
    }
  }

  /** A `Missing ingredient` failure names an entry that really is absent. */
  lemma {:induction false} MissingIsAbsent(book: Book, items: seq<RequiredItem>, depth: nat)
    ensures Expand(book, items, depth).Failed? && Expand(book, items, depth).failure.MissingIngredient? ==>
              Expand(book, items, depth).failure.name !in book
    decreases depth, |items|
  {
    if items != [] {
      var n := |items| - 1;
      var last := items[n];
      MissingIsAbsent(book, items[..n], depth);
      if last.name in book && book[last.name].Recipe? && depth > 0 {
        MissingIsAbsent(book, book[last.name].requiredItems, depth - 1);
      }
    }
  }

  /** Allowing one more level of nesting changes nothing unless the result
      was the stack running out. */
  lemma {:induction false} DeeperAgrees(book: Book, items: seq<RequiredItem>, depth: nat)
    requires Expand(book, items, depth) != Failed(TooDeep)
    ensures Expand(book, items, depth + 1) == Expand(book, items, depth)
    decreases depth, |items|
  {
    if items != [] {
      var n := |items| - 1;
      var last := items[n];
      DeeperAgrees(book, items[..n], depth);
      if Expand(book, items[..n], depth).Done? && last.name in book && book[last.name].Recipe? && depth > 0 {
        DeeperAgrees(book, book[last.name].requiredItems, depth - 1);
      }
    }
  }

  /** So any larger depth gives the same answer. */
  lemma {:induction false} DepthIrrelevantOnceDone(book: Book, items: seq<RequiredItem>, depth: nat, more: nat)
    requires Expand(book, items, depth) != Failed(TooDeep)
    ensures Expand(book, items, depth + more) == Expand(book, items, depth)
    decreases more
  {
    if more > 0 {
      DepthIrrelevantOnceDone(book, items, depth, more - 1);
      DeeperAgrees(book, items, depth + more - 1);
    }
  }

  /** With no cycle guard, a recipe that lists itself never yields a summary,
      however deep the expansion may go. */
  lemma {:induction false} SelfReferenceNeverResolves(book: Book, name: string, i: nat, depth: nat)
    requires name in book && book[name].Recipe?
    requires i < |book[name].requiredItems| && book[name].requiredItems[i].name == name
    ensures Summarize(book, name, depth).Failed?
    decreases depth
  {
    var items := book[name].requiredItems;
    if depth > 0 {
      SelfReferenceNeverResolves(book, name, i, depth - 1);
      ExpandMeaning(book, items, depth - 1);
    }
    assert !ItemResolves(book, items[i], depth);
    ExpandMeaning(book, items, depth);
  }

  /** A recipe with no required items expands to cook time 0 and no ingredients. */
  lemma EmptyRecipe(book: Book, name: string, depth: nat)
    requires name in book && book[name] == Recipe([])
    ensures Summarize(book, name, depth) == Done(Summary(0, map[]))
  {
  }

  /** A directly required ingredient adds its time times the quantity, and the
      quantity to its own line. */
  lemma {:induction false} DirectIngredient(book: Book, items: seq<RequiredItem>, item: RequiredItem, depth: nat)
    requires Resolves(book, items, depth)
    requires item.name in book && book[item.name].Ingredient?
    ensures Expand(book, items + [item], depth).Done?
    ensures Expand(book, items + [item], depth).summary.cookTime
            == Expand(book, items, depth).summary.cookTime + book[item.name].cookTime * item.quantity
    ensures Get(Expand(book, items + [item], depth).summary.ingredients, item.name)
            == Get(Expand(book, items, depth).summary.ingredients, item.name) + item.quantity
    ensures forall x :: x != item.name ==>
              Get(Expand(book, items + [item], depth).summary.ingredients, x)
              == Get(Expand(book, items, depth).summary.ingredients, x)
    ensures Expand(book, items + [item], depth).summary.ingredients.Keys
            == Expand(book, items, depth).summary.ingredients.Keys + {item.name}
  {
    ExpandMeaning(book, items, depth);
    assert (items + [item])[..|items|] == items;
  }

  /** A required sub-recipe contributes its cook time and every one of its
      ingredient quantities multiplied by the outer quantity. */
  lemma {:induction false} SubRecipeScaled(book: Book, items: seq<RequiredItem>, item: RequiredItem, depth: nat)
    requires Resolves(book, items, depth)
    requires item.name in book && book[item.name].Recipe? && depth > 0
    requires Resolves(book, book[item.name].requiredItems, depth - 1)
    ensures Expand(book, book[item.name].requiredItems, depth - 1).Done?
    ensures Expand(book, items + [item], depth).Done?
    ensures Expand(book, items + [item], depth).summary.cookTime
            == Expand(book, items, depth).summary.cookTime
               + item.quantity * Expand(book, book[item.name].requiredItems, depth - 1).summary.cookTime
    ensures forall x ::
              Get(Expand(book, items + [item], depth).summary.ingredients, x)
              == Get(Expand(book, items, depth).summary.ingredients, x)
                 + item.quantity * Get(Expand(book, book[item.name].requiredItems, depth - 1).summary.ingredients, x)
    ensures Expand(book, items + [item], depth).summary.ingredients.Keys
            == Expand(book, items, depth).summary.ingredients.Keys
               + Expand(book, book[item.name].requiredItems, depth - 1).summary.ingredients.Keys
  {
    ExpandMeaning(book, items, depth);
    ExpandMeaning(book, book[item.name].requiredItems, depth - 1);
    assert (items + [item])[..|items|] == items;
  }

  // ---------------------------------------------------------------------------
  // Worked examples

  /** R1 needs 2 x R2 and R2 needs 3 x X (cook time 5): quantities multiply
      across levels, giving cook time 30 and 6 of X. */
  lemma TwoLevels()
    ensures var book := map["R1" := Recipe([RequiredItem("R2", 2)]),
                            "R2" := Recipe([RequiredItem("X", 3)]),
                            "X" := Ingredient(5)];
            Summarize(book, "R1", 1) == Done(Summary(30, map["X" := 6]))
  {
  }

  /** An ingredient reached along two paths gets the sum of both, not the last. */
  lemma TwoPaths()
    ensures var book := map["Cake" := Recipe([RequiredItem("Egg", 1), RequiredItem("Batter", 2)]),
                            "Batter" := Recipe([RequiredItem("Egg", 3)]),
                            "Egg" := Ingredient(2)];
            Summarize(book, "Cake", 1) == Done(Summary(14, map["Egg" := 7]))
  {
    var book := map["Cake" := Recipe([RequiredItem("Egg", 1), RequiredItem("Batter", 2)]),
                    "Batter" := Recipe([RequiredItem("Egg", 3)]),
                    "Egg" := Ingredient(2)];
    var cake := [RequiredItem("Egg", 1), RequiredItem("Batter", 2)];
    assert cake[..1] == [RequiredItem("Egg", 1)];
    assert [RequiredItem("Egg", 1)][..0] == [];
    assert [RequiredItem("Egg", 3)][..0] == [];
    assert Expand(book, cake[..1], 1) == Done(Summary(2, map["Egg" := 1]));
    assert Expand(book, [RequiredItem("Egg", 3)], 0) == Done(Summary(6, map["Egg" := 3]));
    assert AddScaled(map["Egg" := 1], map["Egg" := 3], 2) == map["Egg" := 7];
  }
}
