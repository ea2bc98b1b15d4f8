/** The browser's `localStorage`, which utils.js and features.js read and
    write: a map from string keys to string values. Whether the medium
    raises on a call (storage disabled, quota exceeded) is decided by the
    browser, so each operation takes it as the `fault` argument. */
module WebStorage {
  import opened Wrappers

  class Store {
    var items: map<string, string>

    constructor (initial: map<string, string>)
      ensures items == initial
    {
      items := initial;
    }

    /** `getItem(key)`: the stored string, or `None` (JavaScript's `null`)
        when the key is absent; `thrown` when the medium raised. */
    method GetItem(key: string, fault: bool) returns (thrown: bool, item: Option<string>)
      ensures thrown == fault
      ensures !thrown ==> (item.Some? <==> key in items)
      ensures !thrown && key in items ==> item == Some(items[key])
      ensures thrown ==> item == None
    {
      thrown := fault;
      if thrown {
        item := None;
      } else if key in items {
        item := Some(items[key]);
      } else {
        item := None;
      }
    }

    /** `setItem(key, value)`: one key replaced, unless the medium raised. */
    method SetItem(key: string, value: string, fault: bool) returns (thrown: bool)
      modifies this
      ensures thrown == fault
      ensures items == if thrown then old(items) else old(items)[key := value]
    {
      thrown := fault;
      if !thrown {
        items := items[key := value];
      }
    }

    /** `removeItem(key)`: one key gone (absent keys are fine), unless the
        medium raised. */
    method RemoveItem(key: string, fault: bool) returns (thrown: bool)
      modifies this
      ensures thrown == fault
      ensures items == if thrown then old(items) else old(items) - {key}
    {
      thrown := fault;
      if !thrown {
        items := items - {key};
      }
    }
  }
}
