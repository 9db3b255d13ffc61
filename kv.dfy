/** `KvStore`: a key-value store held in a map in memory. */
module KvStores {
  import opened Common

  class KvStore {
    var store: map<string, string>

    /** `KvStore::new`: an empty store. */
    constructor ()
      ensures store == map[]
      ensures forall k :: Get(k) == None
    {
      store := map[];
    }

    /** `set`: bind `key` to `value`, replacing any earlier value. */
    method Set(key: string, value: string)
      modifies this
      ensures store == old(store)[key := value]
      ensures Get(key) == Some(value)
      ensures forall k :: k != key ==> Get(k) == old(Get(k))
    {
      store := store[key := value];
    }

    /** `get`: a copy of the value bound to `key`, if any. */
    function Get(key: string): Option<string>
      reads this
    {
      if key in store then Some(store[key]) else None
    }

    /** `remove`: drop the binding of `key`; removing an absent key changes nothing
        and is not an error. */
    method Remove(key: string)
      modifies this
      ensures store == old(store) - {key}
      ensures Get(key) == None
      ensures old(Get(key)) == None ==> store == old(store)
      ensures forall k :: k != key ==> Get(k) == old(Get(k))
    {
      store := store - {key};
    }
  }
}
