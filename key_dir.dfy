/** `KeyDir`: the in-memory directory from each key to where its latest value lies. */
module KeyDirs {
  import opened Common

  /** Where a value lives: the file, the offset of the value and its size. */
  datatype Entry = Entry(fileId: string, valueOffset: nat, valueSz: nat)

  class KeyDir {
    var inner: map<string, Entry>

    /** `KeyDir::new`: an empty directory. */
    constructor ()
      ensures inner == map[]
      ensures forall k :: !ContainsKey(k)
    {
      inner := map[];
    }

    /** `put`: record the entry for `key`, replacing any earlier one. */
    method Put(fileId: string, key: string, valueOffset: nat, valueSz: nat)
      modifies this
      ensures inner == old(inner)[key := Entry(fileId, valueOffset, valueSz)]
      ensures Get(key) == Some(Entry(fileId, valueOffset, valueSz))
      ensures forall k :: k != key ==> Get(k) == old(Get(k))
    {
      var e := Entry(fileId, valueOffset, valueSz);
      inner := inner[key := e];
    }

    /** `get`: a copy of the entry for `key`, if there is one. */
    function Get(key: string): Option<Entry>
      reads this
    {
      if key in inner then Some(inner[key]) else None
    }

    /** `contains_key`: whether the directory has an entry for `key`. */
    function ContainsKey(key: string): (r: bool)
      reads this
      ensures r <==> Get(key).Some?
    {
      key in inner
    }
  }
}
