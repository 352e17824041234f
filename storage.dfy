/**
 * The browser's `localStorage`, with every stored JSON array of strings
 * abstracted to the list it encodes.
 */
module Storage {
  import opened Wrappers

  class LocalStorage {
    var entries: map<string, seq<string>>

    constructor ()
      ensures entries == map[]
    {
      entries := map[];
    }

    /** `localStorage.getItem(key)`: `null` when nothing is stored under `key`. */
    method GetItem(key: string) returns (r: Option<seq<string>>)
      ensures key in entries <==> r.Some?
      ensures key in entries ==> r.value == entries[key]
    {
      if key in entries {
        r := Some(entries[key]);
      } else {
        r := None;
      }
    }

    /** `localStorage.setItem(key, value)`: replaces the value of `key` only. */
    method SetItem(key: string, value: seq<string>)
      modifies this
      ensures entries == old(entries)[key := value]
    {
      entries := entries[key := value];
    }
  }
}
