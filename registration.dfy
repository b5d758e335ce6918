/** Validation of a `POST /entry` request body, shared by the TypeScript
    handler and the Python `create_entry`. Over this typed request body the
    two differ only in how they test that a string field is given: TypeScript tests truthiness (`!name`),
    so an empty string counts as missing; Python tests presence (`"name" not
    in data`), so an empty string is accepted. */
module Registration {
  import opened Catalog

  /** An element of `requiredItems` as sent; `None` is a field that is absent
      (or, for `quantity`, not a number). */
  datatype Item = Item(name: Option<string>, quantity: Option<int>)

  /** The request body. `requiredItems == None` is a missing field or one that
      is not a list; `cookTime == None` is a missing field or one that is not
      an integer. `kind` is the body's `type` field. */
  datatype Request = Request(
    name: Option<string>,
    kind: Option<string>,
    requiredItems: Option<seq<Item>>,
    cookTime: Option<int>)

  /** The `400` error messages of the handler, in the order they are tested. */
  datatype Rejection =
    | MissingNameOrType   // Missing 'name' or 'type'
    | InvalidType         // Invalid type. Must be 'recipe' or 'ingredient'
    | NameTaken           // Entry name must be unique
    | ItemsNotAList       // Recipe must have a list of 'requiredItems'
    | ItemMissingField    // Each requiredItem must have 'name' and 'quantity'
    | DuplicateItem       // Duplicate requiredItem names are not allowed
    | BadCookTime         // Ingredient must have a 'cookTime' >= 0

  /** Both handlers answer 200 with an empty body once the entry is stored. */
  datatype Status = Stored | Rejected(reason: Rejection)

  datatype Dialect = TypeScript | Python

  /** Whether a string field passes the handler's "is it given" test. */
  predicate Given(d: Dialect, f: Option<string>)
  {
    f.Some? && (d == TypeScript ==> f.value != "")
  }

  /** The loop over `requiredItems` with its `seen` set: the first item that
      lacks a field or repeats a name decides the rejection. */
  function CheckItems(d: Dialect, items: seq<Item>, seen: set<string>): Option<Rejection>
    decreases |items|
  {
    if items == [] then None
    else if !Given(d, items[0].name) || items[0].quantity.None? then Some(ItemMissingField)
    else if items[0].name.value in seen then Some(DuplicateItem)
    else CheckItems(d, items[1..], seen + {items[0].name.value})
  }

  /** All the handler's tests in order; `None` means the entry is stored. */
  function Check(d: Dialect, taken: set<string>, req: Request): Option<Rejection>
  {
    if !Given(d, req.name) || !Given(d, req.kind) then Some(MissingNameOrType)
    else if req.kind.value != "recipe" && req.kind.value != "ingredient" then Some(InvalidType)
    else if req.name.value in taken then Some(NameTaken)
    else if req.kind.value == "recipe" then
      if req.requiredItems.None? then Some(ItemsNotAList) else CheckItems(d, req.requiredItems.value, {})
    else if req.cookTime.None? || req.cookTime.value < 0 then Some(BadCookTime)
    else None
  }

  // ---------------------------------------------------------------------------
  // What an acceptable request is, stated without the order of the tests.

  predicate ItemsComplete(d: Dialect, items: seq<Item>)
  {
    forall i :: 0 <= i < |items| ==> Given(d, items[i].name) && items[i].quantity.Some?
  }

  predicate DistinctNames(items: seq<Item>)
  {
    forall i, j :: 0 <= i < j < |items| ==> items[i].name != items[j].name
  }

  predicate Acceptable(d: Dialect, taken: set<string>, req: Request)
  {
    && Given(d, req.name) && req.name.value !in taken
    && req.kind in {Some("recipe"), Some("ingredient")}
    && (req.kind == Some("recipe") ==>
          req.requiredItems.Some?
          && ItemsComplete(d, req.requiredItems.value)
          && DistinctNames(req.requiredItems.value))
    && (req.kind == Some("ingredient") ==> req.cookTime.Some? && req.cookTime.value >= 0)
  }

  /** The entry the TypeScript handler stores for an accepted request. */
  function ToRequired(items: seq<Item>): (r: seq<RequiredItem>)
    requires forall i :: 0 <= i < |items| ==> items[i].name.Some? && items[i].quantity.Some?
    ensures |r| == |items|
    ensures forall i :: 0 <= i < |items| ==>
              r[i] == RequiredItem(items[i].name.value, items[i].quantity.value)
  {
    if items == [] then [] else [RequiredItem(items[0].name.value, items[0].quantity.value)] + ToRequired(items[1..])
  }

  // ---------------------------------------------------------------------------
  // Lemmas

  /** The item loop passes exactly when every item has both fields, no two
      items share a name and no name was seen before. */
  lemma {:induction false} CheckItemsPasses(d: Dialect, items: seq<Item>, seen: set<string>)
    ensures CheckItems(d, items, seen).None? <==>
              && ItemsComplete(d, items)
              && DistinctNames(items)
              && forall i :: 0 <= i < |items| ==> items[i].name.value !in seen
    ensures CheckItems(d, items, seen) in {None, Some(ItemMissingField), Some(DuplicateItem)}
    decreases |items|
  {
    if items != [] && items[0].name.Some? {
      var rest := items[1..];
      var n := items[0].name;
      CheckItemsPasses(d, rest, seen + {n.value});
      if CheckItems(d, items, seen).None? {
        assert Given(d, n) && n.value !in seen;
        forall i, j | 0 <= i < j < |items| ensures items[i].name != items[j].name {
          if i > 0 { assert items[i] == rest[i - 1] && items[j] == rest[j - 1]; }
          else { assert items[j] == rest[j - 1]; }
        }
        forall i | 0 <= i < |items| ensures Given(d, items[i].name) && items[i].quantity.Some? && items[i].name.value !in seen {
          if i > 0 { assert items[i] == rest[i - 1]; }
        }
      }
      if ItemsComplete(d, items) && DistinctNames(items) && (forall i :: 0 <= i < |items| ==> items[i].name.value !in seen) {
        assert Given(d, n) && items[0].quantity.Some?;
        forall i | 0 <= i < |rest| ensures Given(d, rest[i].name) && rest[i].quantity.Some? && rest[i].name.value !in seen + {n.value} {
          assert rest[i] == items[i + 1];
          assert items[0].name != items[i + 1].name;
        }
        forall i, j | 0 <= i < j < |rest| ensures rest[i].name != rest[j].name {
          assert rest[i] == items[i + 1] && rest[j] == items[j + 1];
        }
      }
    }
  }

  /** The handler stores the entry exactly when the request is acceptable,
      and the name it stores under is then given and new. */
  lemma CheckAcceptsExactly(d: Dialect, taken: set<string>, req: Request)
    ensures Check(d, taken, req).None? <==> Acceptable(d, taken, req)
    ensures Check(d, taken, req).None? ==> req.name.Some? && req.name.value !in taken
  {
    if req.requiredItems.Some? {
      CheckItemsPasses(d, req.requiredItems.value, {});
    }
  }

  /** A name already in the cookbook is always refused, whatever else the
      request holds, unless the request is refused earlier for missing or
      bad `name`/`type`. */
  lemma TakenNameRefused(d: Dialect, taken: set<string>, req: Request)
    requires Given(d, req.name) && req.name.value in taken
    requires req.kind in {Some("recipe"), Some("ingredient")}
    ensures Check(d, taken, req) == Some(NameTaken)
  {
  }

  /** The two handlers agree on every request in which no string field is
      empty; over the typed body they differ only in how they treat empty
      strings. */
  lemma {:induction false} DialectsAgreeWithoutEmptyStrings(taken: set<string>, req: Request)
    requires req.name != Some("") && req.kind != Some("")
    requires req.requiredItems.Some? ==>
               forall i :: 0 <= i < |req.requiredItems.value| ==> req.requiredItems.value[i].name != Some("")
    ensures Check(TypeScript, taken, req) == Check(Python, taken, req)
  {
    if req.requiredItems.Some? {
      SameItemChecks(req.requiredItems.value, {});
    }
  }

  lemma {:induction false} SameItemChecks(items: seq<Item>, seen: set<string>)
    requires forall i :: 0 <= i < |items| ==> items[i].name != Some("")
    ensures CheckItems(TypeScript, items, seen) == CheckItems(Python, items, seen)
    decreases |items|
  {
    if items != [] {
      if items[0].name.Some? {
        SameItemChecks(items[1..], seen + {items[0].name.value});
      }
    }
  }

  /** An empty entry name: TypeScript refuses it, Python stores it. */
  lemma EmptyNameSplitsDialects()
    ensures var req := Request(Some(""), Some("ingredient"), None, Some(3));
            Check(TypeScript, {}, req) == Some(MissingNameOrType) && Check(Python, {}, req) == None
  {
  }
}
