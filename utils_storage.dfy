/** `Utils.storage` in utils.js: JSON over `localStorage`, with every
    exception turned into a `false` or the caller's default. JSON itself is a
    pair of functions the caller supplies: `encode` is `JSON.stringify`
    (`None` when it throws) and `decode` is `JSON.parse` (`None` when it
    throws). */
module Storage {
  import opened Wrappers
  import opened WebStorage

  /** What `get(key, default)` returns for a store holding `items`: the
      decoded item, or `default` when the medium raised, the key is absent,
      the item is the empty (falsy) string, or decoding threw. */
  function Read<V>(items: map<string, string>, key: string, default: V,
                   decode: string -> Option<V>, fault: bool): V
  {
    if fault || key !in items || items[key] == "" then default
    else decode(items[key]).GetOr(default)
  }

  /** A value that survives the round trip through JSON: it encodes, to a
      non-empty string (as `JSON.stringify` output always is), and decodes
      back to itself. */
  ghost predicate RoundTrips<V>(value: V, encode: V -> Option<string>, decode: string -> Option<V>) {
    && encode(value).Some?
    && encode(value).value != ""
    && decode(encode(value).value) == Some(value)
  }

  /** `set(key, value)`. */
  method Set<V>(ls: Store, key: string, value: V, encode: V -> Option<string>, fault: bool)
    returns (ok: bool)
    modifies ls
    ensures ok <==> encode(value).Some? && !fault
    ensures ok ==> ls.items == old(ls.items)[key := encode(value).value]
    ensures !ok ==> ls.items == old(ls.items)
  {
    var text := encode(value);
    if text.None? {
      return false;
    }
    var thrown := ls.SetItem(key, text.value, fault);
    ok := !thrown;
  }

  /** `get(key, defaultValue)`. */
  method Get<V>(ls: Store, key: string, default: V, decode: string -> Option<V>, fault: bool)
    returns (r: V)
    ensures r == Read(ls.items, key, default, decode, fault)
  {
    var thrown, item := ls.GetItem(key, fault);
    if thrown || item.None? || item.value == "" {
      return default;
    }
    r := decode(item.value).GetOr(default);
  }

  /** `remove(key)`. */
  method Remove(ls: Store, key: string, fault: bool) returns (ok: bool)
    modifies ls
    ensures ok == !fault
    ensures ls.items == if ok then old(ls.items) - {key} else old(ls.items)
  {
    var thrown := ls.RemoveItem(key, fault);
    ok := !thrown;
  }

  /** A missing key, or a raising medium, gives the default. */
  lemma ReadMissing<V>(items: map<string, string>, key: string, default: V,
                       decode: string -> Option<V>, fault: bool)
    requires fault || key !in items
    ensures Read(items, key, default, decode, fault) == default
  {
  }

  /** An item that does not decode gives the default. */
  lemma ReadUndecodable<V>(items: map<string, string>, key: string, default: V,
                           decode: string -> Option<V>, fault: bool)
    requires key in items && decode(items[key]).None?
    ensures Read(items, key, default, decode, fault) == default
  {
  }

  /** After a successful `set(key, value)` of a value that round-trips,
      `get(key, d)` gives the value back. */
  lemma ReadAfterWrite<V>(items: map<string, string>, key: string, value: V, default: V,
                          encode: V -> Option<string>, decode: string -> Option<V>)
    requires RoundTrips(value, encode, decode)
    ensures Read(items[key := encode(value).value], key, default, decode, false) == value
  {
  }

  /** After a successful `remove(key)`, `get(key, d)` gives `d`. */
  lemma ReadAfterRemove<V>(items: map<string, string>, key: string, default: V,
                           decode: string -> Option<V>)
    ensures Read(items - {key}, key, default, decode, false) == default
  {
  }

  /** Writing or removing one key leaves every other key's reading alone. */
  lemma ReadOtherKey<V>(items: map<string, string>, key: string, other: string, text: string,
                        default: V, decode: string -> Option<V>, fault: bool)
    requires other != key
    ensures Read(items[key := text], other, default, decode, fault) == Read(items, other, default, decode, fault)
    ensures Read(items - {key}, other, default, decode, fault) == Read(items, other, default, decode, fault)
  {
  }

  /** `set` then `get` on the adapter itself: when `set` reports success and
      the value round-trips, `get` returns it; a failed `set` leaves what
      `get` returns as it was. */
  method SetThenGet<V>(ls: Store, key: string, value: V, default: V,
                       encode: V -> Option<string>, decode: string -> Option<V>,
                       setFault: bool)
    returns (ok: bool, r: V)
    modifies ls
    ensures ok && RoundTrips(value, encode, decode) ==> r == value
    ensures !ok ==> r == Read(old(ls.items), key, default, decode, false)
  {
    ok := Set(ls, key, value, encode, setFault);
    r := Get(ls, key, default, decode, false);
    if ok && RoundTrips(value, encode, decode) {
      ReadAfterWrite(old(ls.items), key, value, default, encode, decode);
    }
  }

  /** `remove` then `get`: after a successful remove the key reads as the default. */
  method RemoveThenGet<V>(ls: Store, key: string, default: V,
                          decode: string -> Option<V>, removeFault: bool)
    returns (ok: bool, r: V)
    modifies ls
    ensures ok ==> r == default
  {
    ok := Remove(ls, key, removeFault);
    r := Get(ls, key, default, decode, false);
  }
}
