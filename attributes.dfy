/** change_attributes: copy every entry of one dictionary into another, in place. */
module Attributes {

  /** A Python dict, a mutable object holding a finite map. */
  class Dict<K(==), V> {
    var items: map<K, V>

    constructor (items: map<K, V>)
      ensures this.items == items
    {
      this.items := items;
    }
  }

  /**
   * change_attributes(dicIn, dicNew): every key of dicNew is written into
   * dicIn with dicNew's value; keys only in dicIn keep their values; dicIn
   * itself is returned. The two arguments may be the same dict.
   */
  method ChangeAttributes<K(==), V>(dicIn: Dict<K, V>, dicNew: Dict<K, V>) returns (r: Dict<K, V>)
    modifies dicIn
    ensures r == dicIn
    ensures dicIn.items.Keys == old(dicIn.items).Keys + old(dicNew.items).Keys
    ensures forall k :: k in old(dicNew.items) ==> dicIn.items[k] == old(dicNew.items)[k]
    ensures forall k :: k in old(dicIn.items) && k !in old(dicNew.items) ==>
              dicIn.items[k] == old(dicIn.items)[k]
    ensures dicIn.items == old(dicIn.items) + old(dicNew.items)
    ensures dicNew.items == old(dicNew.items)
  {
    ghost var src := dicNew.items;
    ghost var dst := dicIn.items;
    var keys := dicNew.items.Keys;
    ghost var done: set<K> := {};
    while keys != {}
      invariant keys + done == src.Keys && keys !! done
      invariant dicIn.items == dst + map k | k in done :: src[k]
      invariant dicNew.items == src
      decreases keys
    {
      var key :| key in keys;
      dicIn.items := dicIn.items[key := dicNew.items[key]];
      keys := keys - {key};
      done := done + {key};
    }
    assert (map k | k in done :: src[k]) == src;
    return dicIn;
  }
}
