/** The TypeScript server's cookbook: the `/entry` handler that registers an
    entry, `calculateRecipeSummary` as the loop that updates its running
    total and ingredient map in place, and the `/summary` handler that
    guards it. */
module TsServer {
  import opened Catalog
  import opened Registration
  import opened Expansion

  /** Why `/summary` answers 400. */
  datatype SummaryError =
    | RecipeNotFound          // Recipe not found
    | NotARecipe              // Requested name is not a recipe
    | EngineError(failure: Failure)  // the message of the error the expansion threw

  /** `{ name, cookTime, ingredients }`, or an error. */
  datatype Reply = Ok(name: string, summary: Summary) | Error(error: SummaryError)

  /** The `/summary` handler's answer for the query `name`. */
  function Respond(book: Book, name: string, depth: nat): (r: Reply)
    ensures r == Error(RecipeNotFound) <==> name == "" || name !in book
    ensures r == Error(NotARecipe) <==> name != "" && name in book && book[name].Ingredient?
    ensures r.Ok? <==> name != "" && name in book && book[name].Recipe?
                       && Resolves(book, book[name].requiredItems, depth)
    ensures r.Ok? ==> && r.name == name
                      && r.summary.cookTime == TimeOf(book, book[name].requiredItems, depth)
                      && (forall x :: Get(r.summary.ingredients, x) == AmountOf(book, book[name].requiredItems, x, depth))
                      && (forall x :: x in r.summary.ingredients <==> Reaches(book, book[name].requiredItems, x, depth))
                      && (forall x :: x in r.summary.ingredients ==> x in book && book[x].Ingredient?)
  {
    if name == "" || name !in book then Error(RecipeNotFound)
    else if !book[name].Recipe? then Error(NotARecipe)
    else
      ExpandMeaning(book, book[name].requiredItems, depth);
      ExpandYieldsIngredients(book, book[name].requiredItems, depth);
      match Summarize(book, name, depth)
      case Done(s) => Ok(name, s)
      case Failed(f) => Error(EngineError(f))
  }

  /** Once one item has failed, the items after it do not matter: the loop
      throws and no partial result escapes. */
  lemma {:induction false} FailureIsFinal(book: Book, items: seq<RequiredItem>, k: nat, depth: nat)
    requires k <= |items| && Expand(book, items[..k], depth).Failed?
    ensures Expand(book, items, depth) == Expand(book, items[..k], depth)
    decreases |items| - k
  {
    if k < |items| {
      assert items[..k + 1][..k] == items[..k];
      FailureIsFinal(book, items, k + 1, depth);
    } else {
      assert items[..k] == items;
    }
  }

  /** `calculateRecipeSummary`: loops over the recipe's items, adding into
      `totalCookTime` and `ingredientMap`, and calls itself on sub-recipes. */
  method CalculateRecipeSummary(book: Book, recipeName: string, depth: nat) returns (r: Outcome)
    requires recipeName in book && book[recipeName].Recipe?
    ensures r == Summarize(book, recipeName, depth)
    decreases depth
  {
    var items := book[recipeName].requiredItems;
    var totalCookTime := 0;
    var ingredientMap: map<string, int> := map[];
    assert items[..0] == [];
    for i := 0 to |items|
      invariant Expand(book, items[..i], depth) == Done(Summary(totalCookTime, ingredientMap))
    {
      var item := items[i];
      assert items[..i + 1][..i] == items[..i];
      if item.name !in book {
        FailureIsFinal(book, items, i + 1, depth);
        return Failed(MissingIngredient(item.name));
      }
      var entry := book[item.name];
      if entry.Ingredient? {
        totalCookTime := totalCookTime + entry.cookTime * item.quantity;
        ingredientMap := ingredientMap[item.name := Get(ingredientMap, item.name) + item.quantity];
      } else {
        if depth == 0 {
          FailureIsFinal(book, items, i + 1, depth);
          return Failed(TooDeep);
        }
        var sub := CalculateRecipeSummary(book, item.name, depth - 1);
        if sub.Failed? {
          FailureIsFinal(book, items, i + 1, depth);
          return Failed(sub.failure);
        }
        totalCookTime := totalCookTime + sub.summary.cookTime * item.quantity;
        ingredientMap := MergeScaled(ingredientMap, sub.summary.ingredients, item.quantity);
      }
    }
    assert items[..|items|] == items;
    r := Done(Summary(totalCookTime, ingredientMap));
  }

  /** The inner loop over a sub-recipe's ingredients: each quantity, times
      the outer quantity, is added to what the map already holds. */
  method MergeScaled(ingredientMap: map<string, int>, ingredients: map<string, int>, quantity: int)
    returns (merged: map<string, int>)
    ensures merged == AddScaled(ingredientMap, ingredients, quantity)
  {
    merged := ingredientMap;
    var pending := ingredients.Keys;
    while pending != {}
      invariant pending <= ingredients.Keys
      invariant merged == AddScaled(ingredientMap, ingredients - pending, quantity)
      decreases pending
    {
      var name :| name in pending;
      MergeOne(ingredientMap, ingredients, pending, name, quantity);
      merged := merged[name := Get(merged, name) + ingredients[name] * quantity];
      pending := pending - {name};
    }
    assert ingredients - {} == ingredients;
  }

  /** One step of the inner loop over a sub-recipe's ingredients. */
  lemma MergeOne(start: map<string, int>, m: map<string, int>, pending: set<string>, k: string, q: int)
    requires k in pending && pending <= m.Keys
    ensures var acc := AddScaled(start, m - pending, q);
            acc[k := Get(acc, k) + m[k] * q] == AddScaled(start, m - (pending - {k}), q)
  {
    var done, done' := m - pending, m - (pending - {k});
    assert done.Keys == m.Keys - pending && done'.Keys == done.Keys + {k};
    assert k !in done && done'[k] == m[k];
    var acc := AddScaled(start, done, q);
    var lhs := acc[k := Get(acc, k) + m[k] * q];
    var rhs := AddScaled(start, done', q);
    assert m[k] * q == q * m[k];
    forall x | x in lhs.Keys ensures x in rhs && lhs[x] == rhs[x] {
      if x != k {
        assert Get(done, x) == Get(done', x);
        assert Get(lhs, x) == Get(acc, x) == Get(rhs, x);
      } else {
        assert Get(acc, k) == Get(start, k);
      }
    }
    assert lhs.Keys == rhs.Keys;
  }

  /** The TypeScript server's global `cookbook`. */
  class Cookbook {
    var entries: Book

    constructor ()
      ensures entries == map[]
    {
      entries := map[];
    }

    /** `POST /entry`: validate the body, then insert the new entry. */
    method AddEntry(req: Request) returns (status: Status)
      modifies this
      ensures status == (if Check(TypeScript, old(entries).Keys, req).None? then Stored
                         else Rejected(Check(TypeScript, old(entries).Keys, req).value))
      ensures status.Rejected? ==> entries == old(entries)
      ensures status.Stored? ==> Acceptable(TypeScript, old(entries).Keys, req)
      ensures status.Stored? ==>
                && req.name.Some? && req.name.value !in old(entries)
                && entries.Keys == old(entries).Keys + {req.name.value}
                && entries == old(entries)[req.name.value := StoredEntry(req)]
    {
      CheckAcceptsExactly(TypeScript, entries.Keys, req);
      if !Given(TypeScript, req.name) || !Given(TypeScript, req.kind) {
        return Rejected(MissingNameOrType);
      }
      var name, kind := req.name.value, req.kind.value;
      if kind != "recipe" && kind != "ingredient" {
        return Rejected(InvalidType);
      }
      if name in entries {
        return Rejected(NameTaken);
      }
      if kind == "recipe" {
        if req.requiredItems.None? {
          return Rejected(ItemsNotAList);
        }
        var items := req.requiredItems.value;
        var seen: set<string> := {};
        for i := 0 to |items|
          invariant CheckItems(TypeScript, items, {}) == CheckItems(TypeScript, items[i..], seen)
        {
          var item := items[i];
          assert items[i..][1..] == items[i + 1..];
          if !Given(TypeScript, item.name) || item.quantity.None? {
            return Rejected(ItemMissingField);
          }
          if item.name.value in seen {
            return Rejected(DuplicateItem);
          }
          seen := seen + {item.name.value};
        }
        entries := entries[name := StoredEntry(req)];
      } else {
        if req.cookTime.None? || req.cookTime.value < 0 {
          return Rejected(BadCookTime);
        }
        entries := entries[name := StoredEntry(req)];
      }
      status := Stored;
    }

    /** `GET /summary?name=...`. */
    method Summary(name: string, depth: nat) returns (reply: Reply)
      ensures reply == Respond(entries, name, depth)
    {
      if name == "" || name !in entries {
        return Error(RecipeNotFound);
      }
      if entries[name].Ingredient? {
        return Error(NotARecipe);
      }
      var outcome := CalculateRecipeSummary(entries, name, depth);
      match outcome
      case Done(s) => reply := Ok(name, s);
      case Failed(f) => reply := Error(EngineError(f));
    }
  }

  /** What the handler stores: `{ name, type, requiredItems }` for a recipe,
      `{ name, type, cookTime }` for an ingredient. */
  function StoredEntry(req: Request): (e: Entry)
    requires req.kind == Some("recipe") ==>
               req.requiredItems.Some? && ItemsComplete(TypeScript, req.requiredItems.value)
    requires req.kind != Some("recipe") ==> req.cookTime.Some?
    ensures e.Recipe? <==> req.kind == Some("recipe")
    ensures e.Recipe? ==> |e.requiredItems| == |req.requiredItems.value|
                          && forall i :: 0 <= i < |e.requiredItems| ==>
                               Some(e.requiredItems[i].name) == req.requiredItems.value[i].name
                               && Some(e.requiredItems[i].quantity) == req.requiredItems.value[i].quantity
    ensures e.Ingredient? ==> Some(e.cookTime) == req.cookTime
  {
    if req.kind == Some("recipe") then Recipe(ToRequired(req.requiredItems.value))
    else Ingredient(req.cookTime.value)
  }
}
