/** The Python server's cookbook and its `create_entry` handler. The handler
    stores the request body itself (`cookbook[name] = data`). Its `summary`
    handler is a stub answering 500 and is not modelled. */
module PyServer {
  import opened Registration

  class Cookbook {
    /** The global `cookbook` dict: entry name to the stored request body. */
    var entries: map<string, Request>

    constructor ()
      ensures entries == map[]
    {
      entries := map[];
    }

    /** `POST /entry`: validate the body, then store it under its name. */
    method CreateEntry(data: Request) returns (status: Status)
      modifies this
      ensures status == (if Check(Python, old(entries).Keys, data).None? then Stored
                         else Rejected(Check(Python, old(entries).Keys, data).value))
      ensures status.Rejected? ==> entries == old(entries)
      ensures status.Stored? ==>
                && Acceptable(Python, old(entries).Keys, data)
                && data.name.Some? && data.name.value !in old(entries)
                && entries.Keys == old(entries).Keys + {data.name.value}
                && entries == old(entries)[data.name.value := data]
    {
      CheckAcceptsExactly(Python, entries.Keys, data);
      if data.name.None? || data.kind.None? {
        return Rejected(MissingNameOrType);
      }
      var name, entryType := data.name.value, data.kind.value;
      if entryType !in {"recipe", "ingredient"} {
        return Rejected(InvalidType);
      }
      if name in entries {
        return Rejected(NameTaken);
      }
      if entryType == "recipe" {
        if data.requiredItems.None? {
          return Rejected(ItemsNotAList);
        }
        var requiredItems := data.requiredItems.value;
        var seenItems: set<string> := {};
        for i := 0 to |requiredItems|
          invariant CheckItems(Python, requiredItems, {}) == CheckItems(Python, requiredItems[i..], seenItems)
        {
          var item := requiredItems[i];
          assert requiredItems[i..][1..] == requiredItems[i + 1..];
          if item.name.None? || item.quantity.None? {
            return Rejected(ItemMissingField);
          }
          if item.name.value in seenItems {
            return Rejected(DuplicateItem);
          }
          seenItems := seenItems + {item.name.value};
        }
        entries := entries[name := data];
      } else if entryType == "ingredient" {
        if data.cookTime.None? || data.cookTime.value < 0 {
          return Rejected(BadCookTime);
        }
        entries := entries[name := data];
      }
      status := Stored;
    }
  }
}
