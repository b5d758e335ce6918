/** The data model shared by both servers: the cookbook entries and the
    collection that maps each entry name to its entry. */
module Catalog {

  datatype Option<+T> = None | Some(value: T)

  /** One line of a recipe: the name of another entry and how many of it. */
  datatype RequiredItem = RequiredItem(name: string, quantity: int)

  /** A cookbook entry. The entry's own name is the key it is stored under,
      so it is not repeated here. */
  datatype Entry =
    | Ingredient(cookTime: int)
    | Recipe(requiredItems: seq<RequiredItem>)

  /** The cookbook: entry name to entry. */
  type Book = map<string, Entry>

  /** Quantity of `k` in an accumulator, 0 when absent (the `|| 0` idiom). */
  function Get(m: map<string, int>, k: string): int
  {
    if k in m then m[k] else 0
  }
}
