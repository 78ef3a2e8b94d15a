/** The key/value store the repositories decorate. */
module BackingStore {
  import opened PhpValue

  /** What the store holds under a key: the raw value and the TTL, in minutes,
      it was put with. The store's own expiry is not simulated. */
  datatype Entry = Entry(raw: Value, minutes: nat)

  /** One `put` call the store received. */
  datatype Write = Write(key: string, blob: string, minutes: nat)

  class Store {
    /** The current contents. */
    var entries: map<string, Entry>
    /** Every `put` received so far, oldest first. */
    var puts: seq<Write>

    constructor (initial: map<string, Entry>)
      ensures entries == initial && puts == []
    {
      entries := initial;
      puts := [];
    }

    /** The store's answer to `get($key)`: the raw value, or null for a missing key. */
    function Lookup(key: string): Value
      reads this
    {
      if key in entries then entries[key].raw else Null
    }

    method Get(key: string) returns (raw: Value)
      ensures raw == Lookup(key)
      ensures key in entries ==> raw == entries[key].raw
      ensures key !in entries ==> raw.Null?
    {
      raw := Lookup(key);
    }

    /** `put($key, $value, $minutes)`: replaces one key and records the call. */
    method Put(key: string, blob: string, minutes: nat)
      modifies this
      ensures entries == old(entries)[key := Entry(Str(blob), minutes)]
      ensures puts == old(puts) + [Write(key, blob, minutes)]
    {
      entries := entries[key := Entry(Str(blob), minutes)];
      puts := puts + [Write(key, blob, minutes)];
    }
  }
}
