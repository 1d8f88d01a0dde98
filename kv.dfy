/** The Workers KV namespace bound as `KV`, as far as the worker uses it: `get`
    of a key as an `ArrayBuffer`, and `put` of a value with an `expirationTtl`.
    Expiry and eviction are not simulated: an entry keeps the TTL it was
    written with, and stays readable. */
module Kv {

  import opened Wrappers
  import Base64

  /** KV refuses an `expirationTtl` below 60 seconds. */
  const MinimumTtl: real := 60.0

  datatype Entry = Entry(value: Base64.Bytes, expirationTtl: real)

  /** The store invariant: every entry was written with a TTL KV accepts. */
  predicate EntriesRespectFloor(entries: map<string, Entry>)
  {
    forall key :: key in entries ==> entries[key].expirationTtl >= MinimumTtl
  }

  class KvNamespace {
    var entries: map<string, Entry>

    ghost predicate Valid()
      reads this
    {
      EntriesRespectFloor(entries)
    }

    constructor ()
      ensures Valid() && entries == map[]
    {
      entries := map[];
    }

    /** `get(key, {type: 'arrayBuffer'})`: the stored bytes, or `null` (`None`)
        for a key that holds nothing. */
    method Get(key: string) returns (value: Option<Base64.Bytes>)
      ensures value.Some? <==> key in entries
      ensures value.Some? ==> value.value == entries[key].value
    {
      if key in entries {
        value := Some(entries[key].value);
      } else {
        value := None;
      }
    }

    /** `put(key, value, {expirationTtl})`: replaces whatever the key held and
        leaves every other key as it was. */
    method Put(key: string, value: Base64.Bytes, expirationTtl: real)
      requires Valid() && expirationTtl >= MinimumTtl
      modifies this
      ensures Valid()
      ensures entries == old(entries)[key := Entry(value, expirationTtl)]
    {
      entries := entries[key := Entry(value, expirationTtl)];
    }
  }
}
